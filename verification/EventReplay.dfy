/** What a log of graph events means, and what replaying it rebuilds
    (event_log.py:226-393), on values. */
module EventReplay {
  import opened Multigraph

  datatype Event =
    | NodeAdded(id: Id, tag: string, props: Option<Props>, vector: Vector)
    | EdgeAdded(key: nat, source: Id, target: Id, relation: string, eprops: Option<Props>)
    | NodeRemoved(gone: Id)
    | EdgeRemoved(dropped: nat)

  type Log = seq<Event>

  function EdgeOf(e: Event): Edge
    requires e.EdgeAdded?
  {
    Edge(e.source, e.target, e.relation, OrEmpty(e.eprops))
  }

  /** The effect of the operation that was logged. */
  function Apply(g: Graph, e: Event): Graph {
    match e
    case NodeAdded(id, tag, props, vector) => AddNode(g, id, Node(tag, OrEmpty(props), vector))
    case EdgeAdded(key, _, _, _, _) => AddEdge(g, key, EdgeOf(e))
    case NodeRemoved(id) => RemoveNodes(g, {id})
    case EdgeRemoved(key) => RemoveEdge(g, key)
  }

  /** The graph after a run. */
  function Run(log: Log): Graph {
    if |log| == 0 then Empty else Apply(Run(log[..|log| - 1]), log[|log| - 1])
  }

  /** The graph after a run with its edge removals erased. */
  function RunErased(log: Log): Graph {
    if |log| == 0 then Empty
    else
      var g, e := RunErased(log[..|log| - 1]), log[|log| - 1];
      if e.EdgeRemoved? then g else Apply(g, e)
  }

  function KeysOf(log: Log): set<nat> {
    set e | e in log && e.EdgeAdded? :: e.key
  }

  function RemovedKeys(log: Log): set<nat> {
    set e | e in log && e.EdgeRemoved? :: e.dropped
  }

  /** The operation succeeds on g, the graph after `before`. */
  ghost predicate Possible(before: Log, g: Graph, e: Event) {
    match e
    case NodeAdded(_, _, _, _) => true
    case EdgeAdded(key, source, target, _, _) => source in g.nodes && target in g.nodes && key !in KeysOf(before)
    case NodeRemoved(id) => id in g.nodes
    case EdgeRemoved(key) => KeyUsed(g, key)
  }

  /** A log of operations that all succeeded: only those are logged. */
  ghost predicate Genuine(log: Log) {
    |log| > 0 ==> Genuine(log[..|log| - 1]) && Possible(log[..|log| - 1], Run(log[..|log| - 1]), log[|log| - 1])
  }

  // ---- invariants of runs ----

  ghost predicate KeysFrom(g: Graph, keys: set<nat>) {
    forall e :: e in g.edges ==> e.key in keys
  }

  lemma KeysOfSnoc(log: Log, e: Event)
    ensures KeysOf(log + [e]) == KeysOf(log) + (if e.EdgeAdded? then {e.key} else {})
    ensures RemovedKeys(log + [e]) == RemovedKeys(log) + (if e.EdgeRemoved? then {e.dropped} else {})
  {
    assert forall x :: x in log + [e] <==> x in log || x == e;
  }

  lemma ApplyValid(g: Graph, e: Event, keys: set<nat>)
    requires Valid(g) && KeysFrom(g, keys)
    requires e.EdgeAdded? ==> e.source in g.nodes && e.target in g.nodes && e.key !in keys
    ensures Valid(Apply(g, e))
    ensures KeysFrom(Apply(g, e), keys + (if e.EdgeAdded? then {e.key} else {}))
  {
    match e
    case NodeAdded(_, _, _, _) =>
    case EdgeAdded(key, _, _, _, _) =>
    case NodeRemoved(id) =>
      RemoveNodesValid(g, {id});
      AvoidingElements(g.edges, {id});
    case EdgeRemoved(key) =>
      RemoveEdgeValid(g, key);
      DroppingElements(g.edges, key);
  }

  /** Erasing edge removals changes no node. */
  lemma {:induction false} RunInvariant(log: Log)
    requires Genuine(log)
    ensures Valid(Run(log)) && KeysFrom(Run(log), KeysOf(log))
    ensures Valid(RunErased(log)) && KeysFrom(RunErased(log), KeysOf(log))
    ensures RunErased(log).order == Run(log).order && RunErased(log).nodes == Run(log).nodes
  {
    if |log| > 0 {
      var before, e := log[..|log| - 1], log[|log| - 1];
      assert log == before + [e];
      RunInvariant(before);
      KeysOfSnoc(before, e);
      ApplyValid(Run(before), e, KeysOf(before));
      ApplyValid(RunErased(before), e, KeysOf(before));
    }
  }

  // ---- the edges of a run are those of the erased run whose key was not removed ----

  function DroppingAll(es: seq<Keyed>, keys: set<nat>): seq<Keyed> {
    if |es| == 0 then []
    else DroppingAll(es[..|es| - 1], keys) + (if es[|es| - 1].key in keys then [] else [es[|es| - 1]])
  }

  lemma DroppingAllSnoc(es: seq<Keyed>, e: Keyed, keys: set<nat>)
    ensures DroppingAll(es + [e], keys) == DroppingAll(es, keys) + (if e.key in keys then [] else [e])
  {
    assert (es + [e])[..|es|] == es;
  }

  lemma DroppingSnoc(es: seq<Keyed>, e: Keyed, key: nat)
    ensures Dropping(es + [e], key) == Dropping(es, key) + (if e.key == key then [] else [e])
  {
    assert (es + [e])[..|es|] == es;
  }

  lemma {:induction false} DropOneMore(es: seq<Keyed>, keys: set<nat>, key: nat)
    ensures Dropping(DroppingAll(es, keys), key) == DroppingAll(es, keys + {key})
  {
    if |es| > 0 {
      var t, y := es[..|es| - 1], es[|es| - 1];
      assert es == t + [y];
      DropOneMore(t, keys, key);
      DroppingAllSnoc(t, y, keys);
      DroppingAllSnoc(t, y, keys + {key});
      DroppingSnoc(DroppingAll(t, keys), y, key);
      hide Dropping, DroppingAll;
      assert DroppingAll(t, keys) + [] == DroppingAll(t, keys);
    }
  }

  lemma {:induction false} AvoidingCommutes(es: seq<Keyed>, keys: set<nat>, ids: set<Id>)
    ensures Avoiding(DroppingAll(es, keys), ids) == DroppingAll(Avoiding(es, ids), keys)
  {
    if |es| > 0 {
      var t, y := es[..|es| - 1], es[|es| - 1];
      AvoidingCommutes(t, keys, ids);
      if y.key !in keys {
        assert (DroppingAll(t, keys) + [y])[..|DroppingAll(t, keys)|] == DroppingAll(t, keys);
      } else {
        assert DroppingAll(es, keys) == DroppingAll(t, keys);
      }
      if !Touches(y.edge, ids) {
        assert (Avoiding(t, ids) + [y])[..|Avoiding(t, ids)|] == Avoiding(t, ids);
      } else {
        assert Avoiding(es, ids) == Avoiding(t, ids);
      }
    }
  }

  lemma {:induction false} KeepsUnremoved(es: seq<Keyed>, keys: set<nat>)
    ensures |DroppingAll(es, keys)| <= |es|
    ensures |DroppingAll(es, keys)| == |es| <==> forall e :: e in es ==> e.key !in keys
    ensures |DroppingAll(es, keys)| == |es| ==> DroppingAll(es, keys) == es
  {
    if |es| > 0 {
      var t, y := es[..|es| - 1], es[|es| - 1];
      assert es == t + [y];
      KeepsUnremoved(t, keys);
    }
  }

  /** Removed keys were added before. */
  lemma {:induction false} RemovedWereAdded(log: Log)
    requires Genuine(log)
    ensures RemovedKeys(log) <= KeysOf(log)
  {
    if |log| > 0 {
      var before, e := log[..|log| - 1], log[|log| - 1];
      assert log == before + [e];
      RemovedWereAdded(before);
      KeysOfSnoc(before, e);
      if e.EdgeRemoved? {
        RunInvariant(before);
        var k :| 0 <= k < |Run(before).edges| && Run(before).edges[k].key == e.dropped;
        assert Run(before).edges[k] in Run(before).edges;
      }
    }
  }

  /** A run keeps exactly the edges of its erasure whose key was never removed. */
  lemma {:induction false} RunIsFiltered(log: Log)
    requires Genuine(log)
    ensures Run(log).edges == DroppingAll(RunErased(log).edges, RemovedKeys(log))
  {
    if |log| > 0 {
      var before, e := log[..|log| - 1], log[|log| - 1];
      var es, keys := RunErased(before).edges, RemovedKeys(before);
      assert log == before + [e];
      RunIsFiltered(before);
      KeysOfSnoc(before, e);
      assert keys + {} == keys;
      match e
      case NodeAdded(_, _, _, _) =>
      case EdgeAdded(key, _, _, _, _) =>
        RemovedWereAdded(before);
        DroppingAllSnoc(es, Keyed(key, EdgeOf(e)), keys);
      case NodeRemoved(id) =>
        AvoidingCommutes(es, keys, {id});
      case EdgeRemoved(key) =>
        DropOneMore(es, keys, key);
    }
  }

  // ---- when replay is exact ----

  /** Some later event removes an end of the edge added at position a. */
  ghost predicate EndRemovedAfter(log: Log, a: nat, r: nat)
    requires a < |log| && log[a].EdgeAdded?
  {
    exists q :: r < q < |log| && log[q].NodeRemoved? && Touches(EdgeOf(log[a]), {log[q].gone})
  }

  /** An edge is in the erased run until an end of it is removed. */
  lemma {:induction false} ErasedEdges(log: Log, k: Keyed)
    requires Genuine(log)
    ensures k in RunErased(log).edges <==>
            exists a: nat :: a < |log| && log[a].EdgeAdded? && k == Keyed(log[a].key, EdgeOf(log[a]))
                             && !EndRemovedAfter(log, a, a)
  {
    if |log| > 0 {
      var before, e := log[..|log| - 1], log[|log| - 1];
      assert log == before + [e];
      ErasedEdges(before, k);
      forall a: nat | a < |before| && log[a].EdgeAdded?
        ensures EndRemovedAfter(log, a, a) <==>
                EndRemovedAfter(before, a, a) || (e.NodeRemoved? && Touches(EdgeOf(log[a]), {e.gone}))
      {
        EndRemovedSnoc(before, e, a, a);
      }
      if e.NodeRemoved? {
        AvoidingElements(RunErased(before).edges, {e.gone});
      }
      assert e.EdgeAdded? ==> !EndRemovedAfter(log, |before|, |before|);
      assert log[|before|] == e;
    }
  }

  lemma EndRemovedSnoc(before: Log, e: Event, a: nat, r: nat)
    requires a < |before| && before[a].EdgeAdded? && r < |before|
    ensures EndRemovedAfter(before + [e], a, r) <==>
            EndRemovedAfter(before, a, r) || (e.NodeRemoved? && Touches(EdgeOf(before[a]), {e.gone}))
  {
    var log := before + [e];
    if EndRemovedAfter(before, a, r) {
      var q :| r < q < |before| && before[q].NodeRemoved? && Touches(EdgeOf(before[a]), {before[q].gone});
      assert log[q] == before[q];
    }
    if e.NodeRemoved? && Touches(EdgeOf(before[a]), {e.gone}) {
      assert log[|before|] == e;
    }
  }

  // ---- the same in terms of the logged fields ----

  /** e runs from the logged source to the logged target, as logged. */
  ghost predicate IsLogged(e: Edge, event: Event) {
    && event.EdgeAdded?
    && e.source == event.source && e.target == event.target && e.relation == event.relation
    && Stored(event.eprops, e.props)
  }

  /** After event r the source or the target of event a is removed. */
  ghost predicate LosesEnd(log: Log, a: nat, r: nat)
    requires a < |log| && log[a].EdgeAdded?
  {
    exists q :: r < q < |log| && log[q].NodeRemoved? && (log[q].gone == log[a].source || log[q].gone == log[a].target)
  }

  lemma LosesEndIff(log: Log, a: nat, r: nat)
    requires a < |log| && log[a].EdgeAdded?
    ensures EndRemovedAfter(log, a, r) <==> LosesEnd(log, a, r)
  {
    if EndRemovedAfter(log, a, r) {
      var q :| r < q < |log| && log[q].NodeRemoved? && Touches(EdgeOf(log[a]), {log[q].gone});
    }
    if LosesEnd(log, a, r) {
      var q :| r < q < |log| && log[q].NodeRemoved? && (log[q].gone == log[a].source || log[q].gone == log[a].target);
      assert Touches(EdgeOf(log[a]), {log[q].gone});
    }
  }

  lemma IsLoggedIff(e: Edge, event: Event)
    ensures IsLogged(e, event) <==> event.EdgeAdded? && e == EdgeOf(event)
  {
  }

  /** An edge of the erased run is one that was logged and has not lost an end since. */
  lemma ErasedLogged(log: Log, k: Keyed)
    requires Genuine(log)
    ensures k in RunErased(log).edges <==>
            exists a: nat :: a < |log| && IsLogged(k.edge, log[a]) && k.key == log[a].key && !LosesEnd(log, a, a)
  {
    ErasedEdges(log, k);
    forall a: nat | a < |log| && log[a].EdgeAdded?
      ensures k == Keyed(log[a].key, EdgeOf(log[a])) && !EndRemovedAfter(log, a, a)
         <==> IsLogged(k.edge, log[a]) && k.key == log[a].key && !LosesEnd(log, a, a)
    {
      LosesEndIff(log, a, a);
      IsLoggedIff(k.edge, log[a]);
    }
    hide EndRemovedAfter, LosesEnd, EdgeOf;
  }

  /** Event a adds node x, and no later event adds it again or removes it. */
  ghost predicate LastAdded(log: Log, a: nat, x: Id) {
    && a < |log| && log[a].NodeAdded? && log[a].id == x
    && forall q :: a < q < |log| ==> !Concerns(log[q], x)
  }

  ghost predicate Concerns(event: Event, x: Id) {
    (event.NodeAdded? && event.id == x) || (event.NodeRemoved? && event.gone == x)
  }

  /** A node is there iff its last event added it, and has the data logged then. */
  lemma {:induction false} NodesLogged(log: Log, x: Id)
    ensures x in Run(log).nodes <==> exists a: nat :: LastAdded(log, a, x)
    ensures forall a: nat :: LastAdded(log, a, x) && x in Run(log).nodes ==>
              var n := Run(log).nodes[x];
              n.tag == log[a].tag && n.vector == log[a].vector && Stored(log[a].props, n.props)
  {
    if |log| > 0 {
      var before, e := log[..|log| - 1], log[|log| - 1];
      NodesLogged(before, x);
      assert before + [e] == log;
      if Concerns(e, x) {
        LastConcerned(log, x);
      } else {
        forall a: nat ensures LastAdded(log, a, x) <==> LastAdded(before, a, x) {
          LastAddedSnoc(before, e, a, x);
        }
      }
      hide LastAdded;
    }
  }

  lemma LastConcerned(log: Log, x: Id)
    requires |log| > 0 && Concerns(log[|log| - 1], x)
    ensures forall a: nat :: LastAdded(log, a, x) <==> a == |log| - 1 && log[a].NodeAdded?
  {
  }

  lemma LastAddedSnoc(before: Log, e: Event, a: nat, x: Id)
    requires !Concerns(e, x)
    ensures LastAdded(before + [e], a, x) <==> LastAdded(before, a, x)
  {
    var log := before + [e];
    if LastAdded(log, a, x) {
      forall q | a < q < |before| ensures !Concerns(before[q], x) {
        assert log[q] == before[q];
      }
    }
  }

  lemma {:induction false} GenuinePrefix(log: Log, n: nat)
    requires Genuine(log) && n <= |log|
    ensures Genuine(log[..n])
  {
    if n < |log| {
      GenuinePrefix(log[..|log| - 1], n);
      assert log[..|log| - 1][..n] == log[..n];
    } else {
      assert log[..n] == log;
    }
  }

  lemma GenuineAt(log: Log, r: nat)
    requires Genuine(log) && r < |log|
    ensures Genuine(log[..r]) && Possible(log[..r], Run(log[..r]), log[r])
  {
    GenuinePrefix(log, r + 1);
    assert log[..r + 1][..r] == log[..r];
  }

  /** No key is handed out twice. */
  lemma KeysDistinct(log: Log, a: nat, b: nat)
    requires Genuine(log) && a < b < |log| && log[a].EdgeAdded? && log[b].EdgeAdded?
    ensures log[a].key != log[b].key
  {
    GenuinePrefix(log, b + 1);
    assert log[..b + 1][..b] == log[..b];
    assert log[..b][a] in log[..b];
    assert log[a].key in KeysOf(log[..b]);
  }

  lemma {:induction false} DroppingAllElements(es: seq<Keyed>, keys: set<nat>)
    ensures forall e :: e in DroppingAll(es, keys) ==> e in es
  {
    if |es| > 0 { DroppingAllElements(es[..|es| - 1], keys); }
  }

  /** A key in the graph was handed out by an addition whose ends are still there. */
  lemma KeyHasAddition(log: Log, key: nat) returns (b: nat)
    requires Genuine(log) && KeyUsed(Run(log), key)
    ensures b < |log| && log[b].EdgeAdded? && log[b].key == key && !EndRemovedAfter(log, b, b)
  {
    var g := Run(log);
    var k :| 0 <= k < |g.edges| && g.edges[k].key == key;
    RunIsFiltered(log);
    DroppingAllElements(RunErased(log).edges, RemovedKeys(log));
    assert g.edges[k] in g.edges;
    ErasedEdges(log, g.edges[k]);
    b :| b < |log| && log[b].EdgeAdded? && g.edges[k] == Keyed(log[b].key, EdgeOf(log[b]))
         && !EndRemovedAfter(log, b, b);
  }

  lemma KeysInjective(log: Log, a: nat, b: nat)
    requires Genuine(log) && a < |log| && b < |log| && log[a].EdgeAdded? && log[b].EdgeAdded?
    requires log[a].key == log[b].key
    ensures a == b
  {
    if a < b {
      KeysDistinct(log, a, b);
    } else if b < a {
      KeysDistinct(log, b, a);
    }
  }

  /** When an edge is removed by its key it was added before, and still had both ends. */
  lemma RemovedAlive(log: Log, a: nat, r: nat)
    requires Genuine(log) && a < |log| && r < |log|
    requires log[r].EdgeRemoved? && log[a].EdgeAdded? && log[a].key == log[r].dropped
    ensures a < r && forall q :: a < q < r && log[q].NodeRemoved? ==> !Touches(EdgeOf(log[a]), {log[q].gone})
  {
    var before := log[..r];
    GenuineAt(log, r);
    hide Genuine, Run, RunErased, KeyUsed;
    var b := KeyHasAddition(before, log[r].dropped);
    assert before[b] == log[b];
    KeysInjective(log, a, b);
    forall q | a < q < r && log[q].NodeRemoved? ensures !Touches(EdgeOf(log[a]), {log[q].gone}) {
      assert before[q] == log[q];
    }
  }

  /** So an end removed after the addition was removed after the removal. */
  lemma AfterAddIffAfterRemoval(log: Log, a: nat, r: nat)
    requires Genuine(log) && a < |log| && r < |log|
    requires log[r].EdgeRemoved? && log[a].EdgeAdded? && log[a].key == log[r].dropped
    ensures EndRemovedAfter(log, a, a) <==> EndRemovedAfter(log, a, r)
  {
    RemovedAlive(log, a, r);
    hide Genuine;
    if EndRemovedAfter(log, a, a) {
      var q :| a < q < |log| && log[q].NodeRemoved? && Touches(EdgeOf(log[a]), {log[q].gone});
      assert q > r;
    }
  }

  /** Every edge removed by its key later lost an end anyway. */
  ghost predicate Compensated(log: Log) {
    forall a: nat, r: nat | a < |log| && r < |log| && RemovesEdge(log, a, r) :: EndRemovedAfter(log, a, r)
  }

  /** Event r removes the edge event a added. */
  ghost predicate RemovesEdge(log: Log, a: nat, r: nat)
    requires a < |log| && r < |log|
  {
    log[a].EdgeAdded? && log[r].EdgeRemoved? && log[a].key == log[r].dropped
  }

  lemma CompensatedIff(log: Log)
    requires Genuine(log)
    ensures Compensated(log) <==> forall e :: e in RunErased(log).edges ==> e.key !in RemovedKeys(log)
  {
    if Compensated(log) {
      forall e | e in RunErased(log).edges ensures e.key !in RemovedKeys(log) {
        ErasedEdges(log, e);
        var a: nat :| a < |log| && log[a].EdgeAdded? && e == Keyed(log[a].key, EdgeOf(log[a]))
                      && !EndRemovedAfter(log, a, a);
        forall r: nat | r < |log| && log[r].EdgeRemoved? ensures log[r].dropped != e.key {
          if RemovesEdge(log, a, r) {
            AfterAddIffAfterRemoval(log, a, r);
          }
        }
      }
    } else {
      var a: nat, r: nat :| a < |log| && r < |log| && RemovesEdge(log, a, r) && !EndRemovedAfter(log, a, r);
      AfterAddIffAfterRemoval(log, a, r);
      ErasedEdges(log, Keyed(log[a].key, EdgeOf(log[a])));
      assert log[r] in log;
    }
  }

  /** The rebuilt edges are those of the run, up to keys, exactly when every edge that was
      removed by its key also lost an end later on. */
  lemma ExactIff(log: Log)
    requires Genuine(log)
    ensures multiset(Strip(RunErased(log).edges)) == multiset(Strip(Run(log).edges)) <==> Compensated(log)
  {
    var E, R := RunErased(log).edges, Run(log).edges;
    RunIsFiltered(log);
    KeepsUnremoved(E, RemovedKeys(log));
    CompensatedIff(log);
    assert |multiset(Strip(E))| == |E| && |multiset(Strip(R))| == |R|;
  }

  /** Without edge removals the erased run is the run. */
  lemma {:induction false} NothingRemoved(log: Log)
    requires forall e :: e in log ==> !e.EdgeRemoved?
    ensures RunErased(log) == Run(log)
  {
    if |log| > 0 {
      assert log[|log| - 1] in log;
      NothingRemoved(log[..|log| - 1]);
    }
  }

  /** One more event. */
  lemma Snoc(log: Log, e: Event)
    ensures Run(log + [e]) == Apply(Run(log), e)
    ensures RunErased(log + [e]) == if e.EdgeRemoved? then RunErased(log) else Apply(RunErased(log), e)
    ensures Genuine(log + [e]) <==> Genuine(log) && Possible(log, Run(log), e)
  {
    assert (log + [e])[..|log|] == log;
  }

  const Loop := EdgeAdded(0, Named("a"), Named("a"), "r", None)
  const Start := NodeAdded(Named("a"), "", None, Data(0))

  /** A self-loop is added and removed again. */
  function AddAndRemove(): Log {
    [Start] + [Loop] + [EdgeRemoved(0)]
  }

  lemma LoopAdded()
    ensures Genuine([Start] + [Loop])
    ensures Run([Start] + [Loop]).edges == [Keyed(0, EdgeOf(Loop))]
    ensures RunErased([Start] + [Loop]) == Run([Start] + [Loop])
  {
    var none: Log := [];
    Snoc(none, Start);
    assert none + [Start] == [Start];
    Snoc([Start], Loop);
    assert KeysOf([Start]) == {};
    NothingRemoved([Start] + [Loop]);
  }

  /** A log for which replay is not exact: the removed edge comes back. */
  lemma RemovedEdgeReturns()
    ensures Genuine(AddAndRemove())
    ensures |Run(AddAndRemove()).edges| == 0 && |RunErased(AddAndRemove()).edges| == 1
  {
    LoopAdded();
    Snoc([Start] + [Loop], EdgeRemoved(0));
    hide Run, RunErased, Genuine;
    assert Run([Start] + [Loop]).edges[0].key == 0;
    assert Dropping([Keyed(0, EdgeOf(Loop))], 0) == [];
  }
}
