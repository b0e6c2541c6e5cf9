/** The event-sourced graph of event_log.py, proved against EventReplay. */
module EventLog {
  import opened EventReplay
  import opened MemoryGraph
  import opened Multigraph

  /** An append-only log. */
  class EventStore {
    var events: Log

    constructor ()
      ensures events == []
    {
      events := [];
    }

    method Append(e: Event)
      modifies this
      ensures events == old(events) + [e]
    {
      events := events + [e];
    }
  }

  /** All keys of the log come from before `next`. */
  ghost predicate KeysUpTo(log: Log, next: nat) {
    forall k :: k in KeysOf(log) ==> k < next
  }

  class EventSourcedGraph {
    const graph: SpectralMemoryGraph
    const store: EventStore

    constructor (graph: SpectralMemoryGraph, store: EventStore)
      ensures this.graph == graph && this.store == store
    {
      this.graph, this.store := graph, store;
    }

    /** The log tells exactly how the graph came about. */
    ghost predicate Consistent(keys: KeySource)
      reads graph, store, keys
    {
      && Genuine(store.events)
      && graph.State() == Run(store.events)
      && KeysUpTo(store.events, keys.next)
    }

    method AddNode(id: Id, tag: string, props: Option<Props>, vector: Option<Vector>, keys: KeySource)
      requires Consistent(keys)
      modifies graph, store
      ensures Consistent(keys)
      ensures exists v :: (vector.Some? ==> v == vector.value)
                          && store.events == old(store.events) + [NodeAdded(id, tag, props, v)]
      ensures id in graph.nodes && graph.nodes == old(graph.nodes)[id := graph.nodes[id]]
      ensures graph.edges == old(graph.edges)
      ensures graph.nodes[id].tag == tag && Stored(props, graph.nodes[id].props)
      ensures vector.Some? ==> graph.nodes[id].vector == vector.value
    {
      graph.AddNode(id, tag, props, vector);
      var actual := graph.nodes[id].vector;
      var e := NodeAdded(id, tag, props, actual);
      Snoc(store.events, e);
      hide Run, RunErased, Genuine;
      KeysOfSnoc(store.events, e);
      store.Append(e);
    }

    method AddEdge(source: Id, target: Id, relation: string, props: Option<Props>, keys: KeySource)
      returns (key: Option<nat>)
      requires Consistent(keys)
      modifies graph, store, keys
      ensures Consistent(keys)
      ensures key.Some? <==> source in old(graph.nodes) && target in old(graph.nodes)
      ensures store.events == old(store.events)
                + (if key.Some? then [EdgeAdded(key.value, source, target, relation, props)] else [])
      ensures graph.nodes == old(graph.nodes)
      ensures key.None? ==> graph.edges == old(graph.edges)
      ensures key.Some? ==> |graph.edges| == |old(graph.edges)| + 1
      ensures key.Some? ==> graph.edges[..|old(graph.edges)|] == old(graph.edges)
      ensures key.Some? ==> var k := graph.edges[|old(graph.edges)|];
                            && k.key == key.value && k.edge.source == source && k.edge.target == target
                            && k.edge.relation == relation && Stored(props, k.edge.props)
    {
      key := graph.AddEdge(keys, source, target, relation, props);
      if key.Some? {
        var e := EdgeAdded(key.value, source, target, relation, props);
        Snoc(store.events, e);
        KeysOfSnoc(store.events, e);
        store.Append(e);
      }
    }

    method RemoveNode(id: Id, keys: KeySource) returns (found: bool)
      requires Consistent(keys)
      modifies graph, store
      ensures Consistent(keys)
      ensures found <==> id in old(graph.nodes)
      ensures store.events == old(store.events) + (if found then [NodeRemoved(id)] else [])
      ensures graph.nodes == old(graph.nodes) - {id}
      ensures found ==> forall k :: k in graph.edges <==>
                                      k in old(graph.edges) && k.edge.source != id && k.edge.target != id
      ensures !found ==> graph.edges == old(graph.edges)
    {
      AvoidingElements(graph.edges, {id});
      found := graph.RemoveNode(id);
      if found {
        Snoc(store.events, NodeRemoved(id));
        KeysOfSnoc(store.events, NodeRemoved(id));
        store.Append(NodeRemoved(id));
      }
    }

    method RemoveEdge(key: nat, keys: KeySource) returns (found: bool)
      requires Consistent(keys)
      modifies graph, store
      ensures Consistent(keys)
      ensures found <==> KeyUsed(old(graph.State()), key)
      ensures store.events == old(store.events) + (if found then [EdgeRemoved(key)] else [])
      ensures graph.nodes == old(graph.nodes)
      ensures forall k :: k in graph.edges <==> k in old(graph.edges) && k.key != key
    {
      DroppingElements(graph.edges, key);
      RunInvariant(store.events);
      ghost var before := graph.State();
      found := graph.RemoveEdge(key);
      if found {
        Snoc(store.events, EdgeRemoved(key));
        KeysOfSnoc(store.events, EdgeRemoved(key));
        store.Append(EdgeRemoved(key));
      } else {
        DropUnused(before, key);
      }
    }
  }

  lemma DropUnused(g: Graph, key: nat)
    requires !KeyUsed(g, key)
    ensures RemoveEdge(g, key) == g
  {
    forall k | 0 <= k < |g.edges| ensures g.edges[k].key != key {
    }
    DropNone(g.edges, key);
  }

  // ---- replay ----

  /** The replayed graph up to keys, with only fresh keys. */
  ghost predicate Rebuilt(g: Graph, log: Log, low: nat, next: nat) {
    && ShapeOf(g) == ShapeOf(RunErased(log))
    && DistinctKeys(g.edges)
    && forall e :: e in g.edges ==> low <= e.key < next
  }

  lemma RebuiltNode(g: Graph, log: Log, e: Event, low: nat, next: nat)
    requires Genuine(log + [e]) && Rebuilt(g, log, low, next) && e.NodeAdded?
    ensures Rebuilt(AddNode(g, e.id, Node(e.tag, OrEmpty(e.props), e.vector)), log + [e], low, next)
  {
    Snoc(log, e);
    hide Run, RunErased, Genuine;
  }

  /** An added edge gets a fresh key and finds its ends. */
  lemma RebuiltEdge(g: Graph, log: Log, e: Event, low: nat, next: nat)
    requires Genuine(log + [e]) && Rebuilt(g, log, low, next) && e.EdgeAdded? && low <= next
    ensures e.source in g.nodes && e.target in g.nodes
    ensures Rebuilt(AddEdge(g, next, EdgeOf(e)), log + [e], low, next + 1)
  {
    Snoc(log, e);
    RunInvariant(log);
    hide Run, RunErased, Genuine, KeysFrom;
    assert e.source in g.nodes && e.target in g.nodes;
    StripSnoc(g.edges, Keyed(next, EdgeOf(e)));
    StripSnoc(RunErased(log).edges, Keyed(e.key, EdgeOf(e)));
    hide Valid, Strip;
  }

  lemma RebuiltRemoval(g: Graph, log: Log, e: Event, low: nat, next: nat)
    requires Genuine(log + [e]) && Rebuilt(g, log, low, next) && e.NodeRemoved?
    ensures e.gone in g.nodes && Rebuilt(RemoveNodes(g, {e.gone}), log + [e], low, next)
  {
    Snoc(log, e);
    RunInvariant(log);
    hide Run, RunErased, Genuine, KeysFrom;
    assert e.gone in g.nodes;
    StripAvoiding(g.edges, {e.gone});
    StripAvoiding(RunErased(log).edges, {e.gone});
    AvoidingKeys(g.edges, {e.gone});
    AvoidingElements(g.edges, {e.gone});
    hide Valid, Strip, Avoiding, AvoidingEdges, Outside;
  }

  /** Logged keys are never found among fresh ones. */
  lemma StaleKey(g: Graph, log: Log, low: nat, next: nat, key: nat)
    requires Rebuilt(g, log, low, next) && key < low
    ensures !KeyUsed(g, key)
  {
    forall k | 0 <= k < |g.edges| ensures g.edges[k].key != key {
      assert g.edges[k] in g.edges;
    }
  }

  lemma RemovedIsStale(log: Log, e: Event, low: nat)
    requires Genuine(log + [e]) && KeysUpTo(log, low) && e.EdgeRemoved?
    ensures e.dropped < low
    ensures RunErased(log + [e]) == RunErased(log)
  {
    Snoc(log, e);
    RunInvariant(log);
    var k :| 0 <= k < |Run(log).edges| && Run(log).edges[k].key == e.dropped;
    assert Run(log).edges[k] in Run(log).edges;
  }

  /** The body of the replay loop; the KeyErrors it swallows are `found == false`. */
  method ReplayEvent(graph: SpectralMemoryGraph, e: Event, keys: KeySource, ghost log: Log, ghost low: nat)
    requires Genuine(log + [e]) && KeysUpTo(log, low) && low <= keys.next
    requires Rebuilt(graph.State(), log, low, keys.next)
    modifies graph, keys
    ensures keys.next >= old(keys.next)
    ensures Rebuilt(graph.State(), log + [e], low, keys.next)
  {
    ghost var g, next := graph.State(), keys.next;
    match e
    case NodeAdded(id, tag, props, vector) =>
      RebuiltNode(g, log, e, low, next);
      graph.AddNode(id, tag, props, Some(vector));
    case EdgeAdded(_, source, target, relation, props) =>
      RebuiltEdge(g, log, e, low, next);
      var key := graph.AddEdge(keys, source, target, relation, props);
      assert key.Some?;
    case NodeRemoved(id) =>
      RebuiltRemoval(g, log, e, low, next);
      var found := graph.RemoveNode(id);
    case EdgeRemoved(key) =>
      RemovedIsStale(log, e, low);
      StaleKey(g, log, low, next, key);
      DropUnused(g, key);
      var found := graph.RemoveEdge(key);
  }

  /** Replaying the log never fails, leaves the log alone, and rebuilds the run with its edge
      removals erased, up to edge keys. */
  method ReplayFrom(store: EventStore, keys: KeySource) returns (esg: EventSourcedGraph)
    requires Genuine(store.events) && KeysUpTo(store.events, keys.next)
    modifies keys
    ensures fresh(esg) && fresh(esg.graph) && esg.store == store
    ensures ShapeOf(esg.graph.State()) == ShapeOf(RunErased(store.events))
    ensures esg.graph.nodes == Run(store.events).nodes && esg.graph.order == Run(store.events).order
    ensures multiset(Strip(esg.graph.edges)) == multiset(Strip(Run(store.events).edges)) <==> Compensated(store.events)
    ensures forall e :: e in Strip(esg.graph.edges) <==> IsStanding(store.events, e)
  {
    var graph := new SpectralMemoryGraph(42);
    esg := new EventSourcedGraph(graph, store);
    ghost var low := keys.next;
    ReplayAll(graph, store.events, keys);
    RebuiltMeaning(graph.State(), store.events, low, keys.next);
    StandingEdges(store.events);
  }

  /** Some event added the edge, as it is, and neither end was removed since. */
  ghost predicate IsStanding(log: Log, e: Edge) {
    exists a: nat :: a < |log| && IsLogged(e, log[a]) && !LosesEnd(log, a, a)
  }

  lemma StandingEdges(log: Log)
    requires Genuine(log)
    ensures forall e :: e in Strip(RunErased(log).edges) <==> IsStanding(log, e)
  {
    var es := RunErased(log).edges;
    forall e ensures e in Strip(es) <==> IsStanding(log, e) {
      if e in Strip(es) {
        var k :| 0 <= k < |es| && Strip(es)[k] == e;
        assert es[k] in es;
        ErasedLogged(log, es[k]);
      }
      if IsStanding(log, e) {
        var a: nat :| a < |log| && IsLogged(e, log[a]) && !LosesEnd(log, a, a);
        ErasedLogged(log, Keyed(log[a].key, e));
        var k :| 0 <= k < |es| && es[k] == Keyed(log[a].key, e);
        assert Strip(es)[k] == e;
      }
    }
  }

  method ReplayAll(graph: SpectralMemoryGraph, events: Log, keys: KeySource)
    requires Genuine(events) && KeysUpTo(events, keys.next) && graph.State() == Empty
    modifies graph, keys
    ensures Rebuilt(graph.State(), events, old(keys.next), keys.next)
  {
    ghost var low := keys.next;
    for k := 0 to |events|
      invariant low <= keys.next
      invariant Rebuilt(graph.State(), events[..k], low, keys.next)
    {
      NextEvent(events, k, low);
      ReplayEvent(graph, events[k], keys, events[..k], low);
    }
    assert events[..|events|] == events;
  }

  lemma SplitLast(log: Log, k: nat)
    requires k < |log|
    ensures log[..k + 1] == log[..k] + [log[k]]
  {
  }

  lemma NextEvent(log: Log, k: nat, low: nat)
    requires Genuine(log) && k < |log| && KeysUpTo(log, low)
    ensures log[..k + 1] == log[..k] + [log[k]] && Genuine(log[..k] + [log[k]]) && KeysUpTo(log[..k], low)
  {
    hide *;
    SplitLast(log, k);
    GenuinePrefix(log, k + 1);
    PrefixKeys(log, k, low);
  }

  /** The nodes are the run's; so are the edges exactly when all edge removals are compensated. */
  lemma RebuiltMeaning(g: Graph, log: Log, low: nat, next: nat)
    requires Genuine(log) && Rebuilt(g, log, low, next)
    ensures g.nodes == Run(log).nodes && g.order == Run(log).order
    ensures multiset(Strip(g.edges)) == multiset(Strip(Run(log).edges)) <==> Compensated(log)
  {
    hide Valid, KeysFrom, Compensated;
    RunInvariant(log);
    ExactIff(log);
    hide Run, RunErased, Genuine;
  }

  lemma PrefixKeys(log: Log, k: nat, low: nat)
    requires k <= |log| && KeysUpTo(log, low)
    ensures KeysUpTo(log[..k], low)
  {
    forall key | key in KeysOf(log[..k]) ensures key in KeysOf(log) {
      var e :| e in log[..k] && e.EdgeAdded? && e.key == key;
      assert e in log;
    }
  }
}
