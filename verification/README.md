# Verified models of the SMGP graph, topology and search kernels

SMGP keeps a knowledge graph whose nodes carry hyperdimensional vectors. Around that graph it has
a number of algorithms with loops, shared mutable state and exact specifications: a Union-Find
computation of persistent homology, a greedy distance between persistence diagrams, pattern matching
and double-pushout rewriting, three breadth-first searches, an event log that can be replayed, a sharded
back end, and three small kernels (a crossbar tile allocator, a rate limiter and a fixed-point square
root). This project models them in Dafny and proves what they promise, for all inputs and all runs.

Code that works step by step is modelled by methods and classes that do the same steps, and each of those
is proved against a specification on plain values; the lemmas then say what the specification means
independently of the algorithm. `dafny verify dfyconfig.toml` checks the whole project.

| module | models |
|---|---|
| `Connectivity`, `UnionFind`, `Persistence`, `Kruskal`, `SpanningTree`, `Diagrams` | H0 persistence: path halving, union by rank, Kruskal's loop, the diagram |
| `Wasserstein`, `Topology` | the greedy diagram distance, the stability check, pruning |
| `Multigraph`, `MemoryGraph` | the property multigraph with keyed parallel edges |
| `Matching`, `Rewriting`, `RewriteCheck`, `GraphRewriter` | backtracking matcher, double-pushout step, sequence check |
| `Bfs`, `PathSearch`, `SearchOrder`, `Traversal` | the layer invariant and the three searches built on it |
| `EventReplay`, `EventLog` | the event-sourced graph and its replay |
| `Ranking`, `Sharding` | top-k queries and the sharded back end |
| `MemoryMapper`, `RateLimiter`, `FixedPoint` | tile allocator, sliding-window limiter, square root |
| `Sorting`, `Stability`, `FiniteSets`, `Arithmetic` | stable sorting, finite sets and division, shared by the others |

Results worth reading first:

- `Kruskal.SimplePersistence` returns n - 1 ascending merge bars that count the connected components at
  *every* scale, and `Persistence.DescribesUnique` shows that this leaves only one diagram;
  `SpanningTree.LeastWeight` shows that the deaths add up to the weight of a minimum spanning tree.
- `UnionFind.LogarithmicDepth`, `HalveKeepsRoot` and `HalveHalvesDepth`: `find` rewrites parents while reading
  them, changes no root, halves the walk, and no walk exceeds log2(n).
- `Wasserstein.GreedyUnique` and `GreedyCost`: the greedy pass is the one stable choice, a matching of
  all points, at most half the total persistence, and 0 for a diagram against itself.
- `Matching.MatchesExact`, `Rewriting.RewriteCorrect`, `RewriteCount`, `AcceptedIff`: the matcher finds all and only
  the matches; what a rewrite does to every node and edge; when the node count is as promised; what
  acceptance of a sequence means.
- `PathSearch.FindPathCorrect`, `SearchOrder.FindPathExact` and `Traversal.TraversalCorrect`: shortest paths, exactly which targets
  a budget reaches, exactly which vertices a depth bound lists.
- `EventReplay.ExactIff`: replay is exact if and only if every edge that was removed by its key later lost an end.

## Promises the code does not keep

The code was followed where it and its documentation disagree. Each case has a concrete input and the exact
condition under which the promise holds.

- Replay "recreating the exact graph state" (`src/smgp/memory/event_log.py:350`): edge removals are not replayed, because
  replayed edges get new keys. `EventReplay.RemovedEdgeReturns` is a log that shows it; by `EventReplay.ExactIff` the
  rebuild is exact if and only if every edge removed by its key later lost an end.
- "Each rewrite has a valid match" (`src/smgp/core/category.py:277`): only the existence of *some* match of the left side is
  checked, never the match supplied. `RewriteCheck.AcceptedWithoutMatch` is an accepted sequence whose match
  does not fit. By `RewriteCheck.StrictIff` a check of the supplied matches accepts a sequence if and only if this check does
  and every step reached is supplied with one of the matches `match_pattern` returns there.
- `max_depth` as "maximum search depth" (`src/smgp/reasoning/verifier.py:94`): it limits dequeues.
  `PathSearch.DepthOneMissesNeighbour` is a neighbour missed at depth 1. By `SearchOrder.FindPathExact` a target is found if
  and only if it is among the first `max_depth` nodes in breadth-first order, and by `SearchOrder.FindsWithin` every
  node within distance k is found if and only if `max_depth` is at least the number of these nodes.
- |V| - |L\K| + |R\K| nodes after a rewrite: `RewriteCheck.ReplacementCollides` replaces two nodes one for one and is left with
  one; by `Rewriting.RewriteCount` the count is right if and only if no generated id is taken.
- The address returned by `allocate_node` (`hardware/sw/smgp_hal/memory_mapper.py:50-56`) after wear levelling:
  `MemoryMapper.RotationMisplaces` is a run after which it is wrong. By `MemoryMapper.AddressRight` it is right, from any layout, if
  and only if it is a free row (after compaction, on overflow), and by `MemoryMapper.RotatedAddress` it is right just after rotating a
  packed layout if and only if there was one tile at most, the last tile was full, or the allocation overflows.
- Cross-shard edges on both shards (`src/smgp/core/distributed.py:115-116`): `remove_node` clears one side only.
  `Sharding.RemovalLeavesCopy` is such a removal; by `Sharding.RemovalMirrored` both sides still agree if and only if the node had
  no cross-shard edge in either direction.
- `fp_sqrt` reads 32 bit pairs: by `FixedPoint.RootBounds` its bounds hold, for every even number f of fraction bits, if
  and only if the input is below 2^64 or 2^f, whichever is more.

## Model

| member | source | states |
|---|---|---|
| UnionFind.HalveKeepsRoot | src/smgp/core/topology.py:184-188 | path halving changes no element's root, makes no walk longer and keeps the same roots |
| UnionFind.HalveHalvesDepth | src/smgp/core/topology.py:184-188 | after `find(x)` the walk from x is half as long, rounded up |
| UnionFind.Find | src/smgp/core/topology.py:184-188 | terminates; returns the root as it was before the call; parents afterwards are the halved ones; takes half as many steps as x was deep |
| UnionFind.LogarithmicDepth | src/smgp/core/topology.py:180-199 | in a ranked forest every walk of length k has 2^k <= n |
| UnionFind.HalveKeepsBalance | src/smgp/core/topology.py:184-199 | after `find` a root of rank r still has at least 2^r members and ranks still rise along links |
| UnionFind.LinkKeepsBalance | src/smgp/core/topology.py:194-198 | so after hanging the lower rank below the other |
| UnionFind.LinkUnites | src/smgp/core/topology.py:190-199 | linking two roots unites exactly their two sets and removes one root |
| UnionFind.LinkByRank | src/smgp/core/topology.py:194-198 | the root of lower rank (ry on a tie) is hung below the other, ranks change only at the winner, the forest stays ranked |
| UnionFind.Union | src/smgp/core/topology.py:190-199 | True iff x and y were in different sets; the new partition is the old with those two sets united; one root fewer iff True |
| UnionFind.PlainUnion | src/smgp/core/topology.py:372-383 | the rankless twin: the same partition, and a forest still |
| Connectivity.AddEdgeComponents | src/smgp/core/topology.py:203-206 | an edge lowers the number of components by one exactly when its ends were not connected |
| Persistence.KeptComponents | src/smgp/core/topology.py:203-206 | merges plus components always make n |
| Persistence.KeptConnects | src/smgp/core/topology.py:203-206 | the merge edges alone connect whatever all edges seen connect |
| Kruskal.UnionTracks | src/smgp/core/topology.py:190-206 | if the sets are the components of the edges seen, they are so after `union(i, j)`, which is True iff i and j were not connected |
| Kruskal.EdgeList | src/smgp/core/topology.py:173-178 | every pair i < j once with its distance, in lexicographic order of (distance, i, j) |
| Kruskal.MergeEdge | src/smgp/core/topology.py:203-206 | one round keeps ranks and sets true to the edges seen |
| Kruskal.MergeLoop | src/smgp/core/topology.py:201-206 | one bar (0, distance) per edge that joins two components of the edges before it, whatever `find` did to the parents |
| Kruskal.EssentialLoop | src/smgp/core/topology.py:212-214 | one essential bar per root |
| Persistence.PrefixThreshold | src/smgp/core/topology.py:173-206 | the bars dead by t and the components at t add up to n, for every prefix of the sorted edges |
| Persistence.ThresholdTheorem | src/smgp/core/topology.py:157-216 | for every t the graph of the pairs with distance <= t has n minus (merge bars with death <= t) components |
| Persistence.BarCount | src/smgp/core/topology.py:201-214 | exactly n - 1 merge bars, in ascending order of death |
| Persistence.H0Describes | src/smgp/core/topology.py:157-216 | the nearest-first diagram satisfies the description by components at every scale |
| Persistence.DescribesUnique | src/smgp/core/topology.py:157-216 | a distance matrix has only one diagram that fits the description |
| Kruskal.SimplePersistence | src/smgp/core/topology.py:157-216 | for every square matrix: n - 1 ascending bars from 0 that count components at every scale, then the one essential bar at 1.5 times the maximum; no bar for n = 0 |
| SpanningTree.AcyclicIff | src/smgp/core/topology.py:203-206 | a graph is a forest iff edges plus components make n |
| SpanningTree.PrefixDominates | src/smgp/core/topology.py:173-206 | among the edges seen so far no forest has more edges than there are merges |
| SpanningTree.PrefixWeight | src/smgp/core/topology.py:173-206 | so no forest of the same size weighs less (summed by parts over the sorted edges) |
| SpanningTree.MergesSpan | src/smgp/core/topology.py:203-206 | the merge edges form a spanning tree of the complete graph |
| SpanningTree.MinimumSpanningTree | src/smgp/core/topology.py:173-206 | the deaths of the merges add up to the merges' weight, which no spanning tree undercuts |
| SpanningTree.LeastWeight | src/smgp/core/topology.py:157-216 | the deaths in the returned diagram add up to the weight of some spanning tree and to no more than that of any |
| Diagrams.SortTriplesCorrect | src/smgp/core/topology.py:178 | the same tuples, by weight, then first index, then second |
| Wasserstein.CostMatrix | src/smgp/core/topology.py:289-311 | a cell of two points is the sum of their two coordinate differences in size, a diagonal cell half the time from birth to death (0 if negative), each stated by inequalities on the coordinates |
| Wasserstein.Assignments | src/smgp/core/topology.py:318-328 | all and only the admissible assignments, each once, cheapest first |
| Wasserstein.GreedyUnique | src/smgp/core/topology.py:314-334 | the chosen set is the one and only set without clashes in which everything left out clashes with an earlier choice |
| Wasserstein.GreedyMatching | src/smgp/core/topology.py:288-336 | every point of either diagram is used exactly once, with a partner or its own diagonal slot, and no choice costs more than half the persistence of its points |
| Wasserstein.GreedyBounds | src/smgp/core/topology.py:288-336 | the total is between 0 and half the total persistence |
| Wasserstein.SelfGreedy | src/smgp/core/topology.py:288-336 | comparing a diagram with itself, every prefix of the pass has chosen exactly the pairs (i, i) it saw |
| Wasserstein.LeastCostExists | src/smgp/core/topology.py:288-336 | among all matchings of two diagrams there is one of least cost |
| Wasserstein.MatchingGap | src/smgp/core/topology.py:288-336 | every matching costs at least half the difference of the total persistences |
| Wasserstein.GreedyCost | src/smgp/core/topology.py:288-336 | the result is the cost of a matching, at least the least such cost, at least half the difference and at most half the sum of the total persistences, and 0 for equal diagrams, duplicates and empty bars included |
| Wasserstein.GreedyCostUnique | src/smgp/core/topology.py:288-336 | the specification of the cost leaves one value |
| Wasserstein.Pairwise | src/smgp/core/topology.py:253-336 | the greedy cost, 0 for two empty diagrams, and the count-based estimate when one is empty |
| Wasserstein.OneEmpty | src/smgp/core/topology.py:276-286 | with one diagram empty each point of the other counts half of 1, or half of their largest coordinate if that is more |
| Wasserstein.Distance | src/smgp/core/topology.py:241-251 | the sum over the dimensions both have; 0 against itself |
| Wasserstein.DistanceUnique | src/smgp/core/topology.py:241-251 | two diagram lists have one distance |
| Topology.ComputePersistence | src/smgp/core/topology.py:114-119 | fewer than two nodes give one empty diagram; otherwise the H0 diagram that counts components at every scale and an empty H1 |
| Topology.DriftUnique | src/smgp/core/topology.py:456-459 | two matrices have one diagram distance, 0 for equal ones |
| Topology.DriftOfH0 | src/smgp/core/topology.py:456-459 | with two nodes or more on both sides the distance is the greedy cost of the two H0 diagrams, so at least half the difference of their persistences |
| Topology.StabilityCheck | src/smgp/core/topology.py:434-460 | stable iff the distance of the two diagrams is at most the bound; stable against itself for every bound >= 0; unstable whenever the total persistences differ by more than twice the bound |
| Topology.AloneIff | src/smgp/core/topology.py:385-399 | farther than the threshold from every other node iff connected to none at the threshold |
| Topology.ComponentsAt | src/smgp/core/topology.py:385-388 | the sets are the components of the pairs within the threshold |
| Topology.CountComponents | src/smgp/core/topology.py:390-394 | the dictionary counts every set under its root although `find` keeps rewriting parents |
| Topology.SingletonIff | src/smgp/core/topology.py:397-399 | size 1 iff connected to nothing else |
| Topology.HasRelation | src/smgp/core/topology.py:401-405 | finds a node at distance below 1 iff there is one |
| Topology.Prunable | src/smgp/core/topology.py:364-407 | node i is listed iff every other node is farther than the threshold and at distance at least 1 |
| Topology.PruneByPersistence | src/smgp/core/topology.py:358-432 | fewer than two nodes: the graph itself; otherwise a new graph, the induced subgraph up to edge keys on the nodes that have another node within the threshold or nearer than 1 |
| MemoryGraph.KeySource.Fresh | src/smgp/core/graph.py:129 | every edge key is new |
| MemoryGraph.SpectralMemoryGraph.AddNode | src/smgp/core/graph.py:76-102 | a new node is appended; an existing one keeps place and edges and gets the new data; a vector is drawn only if none is given |
| MemoryGraph.SpectralMemoryGraph.AddEdge | src/smgp/core/graph.py:104-137 | KeyError, and nothing changed, iff an end is missing; otherwise one more edge under a fresh key |
| MemoryGraph.SpectralMemoryGraph.RemoveNode | src/smgp/core/graph.py:139-150 | KeyError iff missing; otherwise the node and exactly its incident edges go |
| MemoryGraph.SpectralMemoryGraph.RemoveEdge | src/smgp/core/graph.py:152-165 | KeyError iff no edge has the key; otherwise exactly that edge goes |
| MemoryGraph.CopyWithout | src/smgp/core/topology.py:409-432 | a fresh graph that is the original without the given nodes and their edges, up to edge keys |
| Multigraph.RemoveNodesValid | src/smgp/core/graph.py:139-150 | removing nodes leaves no dangling edge and distinct keys |
| Matching.CheckConstraints | src/smgp/core/category.py:80-90 | valid iff a label constraint is the label, every expected property is there with its value (or None and absent), and any other field is expected to be None |
| Matching.CheckEntries | src/smgp/core/category.py:83-88 | True iff every expected entry is present with its value, or absent and expected to be None |
| Matching.CandidatesCorrect | src/smgp/core/category.py:72-93 | the candidates are the fitting nodes, in node order |
| Matching.FindCandidates | src/smgp/core/category.py:74-93 | the candidate loop computes that list |
| Matching.CompletionsExact | src/smgp/core/category.py:98-133 | below any partial assignment the search lists exactly the matches that extend it |
| Matching.Matcher.EdgesMatch | src/smgp/core/category.py:100-122 | True iff every pattern edge has a host edge with its relation |
| Matching.Matcher.Backtrack | src/smgp/core/category.py:98-133 | appends exactly the completions and leaves `current_match` as it found it |
| Matching.MatchesExact | src/smgp/core/category.py:51-136 | m is found iff the pattern is non-empty and m is an injective assignment that satisfies every label, constraint and edge |
| Matching.EmbedsIff | src/smgp/core/category.py:74-133 | a match is an assignment of different nodes whose labels, properties and fields are as expected, with a host edge for every pattern edge in its direction and relation |
| Matching.MatchesOrdered | src/smgp/core/category.py:95-136 | matches come in lexicographic candidate order, each once |
| Matching.MatchPattern | src/smgp/core/category.py:51-136 | the method returns that ordered list; m is in it iff the pattern is non-empty and m is such an assignment, spelled out field by field |
| Rewriting.GrowKeeps | src/smgp/core/category.py:228-241 | adding R's nodes adds one per new index and leaves all others, preserved ones included, as they were |
| Rewriting.RewriteCorrect | src/smgp/core/category.py:169-252 | after an accepted step the nodes are the host's that are not deleted plus the new ones of R; every node that is not new keeps its data, new ones have R's; the edges are the host's with neither end deleted, as often as there, then one per edge of R, in order, from its source's node to its target's with its relation and properties; none dangles |
| Rewriting.GluedIff | src/smgp/core/category.py:175-196 | the gluing condition holds iff every host edge from a deleted to a preserved node is matched by an edge of L, in either direction |
| Rewriting.RewriteOutcome | src/smgp/core/category.py:169-252 | ValueError iff all indices are matched and that condition fails; KeyError iff an index is unmatched or, the condition met, an edge of R has an end that is neither a remaining nor a new node |
| Rewriting.GrowAdds | src/smgp/core/category.py:228-241 | preserved indices of R map to their matched nodes; every other index gets a generated node of its own, with R's label and properties and the vector drawn after those of the new indices before it |
| Rewriting.GrowCount | src/smgp/core/category.py:228-241 | one more node per new index exactly when every generated id is new |
| Rewriting.RewriteCount | src/smgp/core/category.py:218-241 | for a valid injective match the node count is V - L\K + R\K iff no generated id is already taken |
| RewriteCheck.ReplacementCollides | src/smgp/core/category.py:228-241 | two nodes replaced one for one, accepted, and one node left |
| RewriteCheck.AcceptedIff | src/smgp/core/category.py:271-329 | a sequence is accepted iff, run for real, every step finds some match of its left side and succeeds; then the run raises nothing |
| RewriteCheck.RaisedIff | src/smgp/core/category.py:309-327 | the check raises iff some step raises a KeyError after its left side was found and all steps before it succeeded |
| RewriteCheck.SuppliedIff | src/smgp/core/category.py:313-316 | being one of the matches found is being an injective assignment that fits labels, constraints and edges |
| RewriteCheck.StrictIff | src/smgp/core/category.py:309-327 | checking the supplied match instead of any match accepts iff the check accepts and every step reached is supplied with a match found there; the two verdicts are equal iff the check rejects or every step reached is so supplied |
| RewriteCheck.AcceptedWithoutMatch | src/smgp/core/category.py:313-325 | an accepted sequence whose supplied match is no match, and which the strict check rejects |
| GraphRewriter.GraphRewriter.CheckGluing | src/smgp/core/category.py:175-196 | passes iff every edge from a deleted to a preserved node is one of L's, in either direction, stated on the match itself |
| GraphRewriter.GraphRewriter.DeleteNodes | src/smgp/core/category.py:218-222 | exactly the matched L\K nodes and their edges go, repeated ids included |
| GraphRewriter.GraphRewriter.AddNodes | src/smgp/core/category.py:228-241 | preserved indices keep their nodes, the others get generated ids named by the current node count |
| GraphRewriter.GraphRewriter.Build | src/smgp/core/category.py:198-252 | the new graph is the rewritten host up to keys, or the KeyError of a missing end |
| GraphRewriter.GraphRewriter.ApplyDpoRewrite | src/smgp/core/category.py:138-269 | raises exactly when the step fails and then changes neither graph nor traces; otherwise installs the rewritten graph and appends one trace, which lists exactly the deleted and the new nodes |
| GraphRewriter.GraphRewriter.VerifyRewriteSequence | src/smgp/core/category.py:271-329 | returns what replaying the steps on a copy yields; the rewriter's graph and traces are not in its frame |
| GraphRewriter.GraphRewriter.ApplySequence | src/smgp/core/category.py:307-329 | after an accepted check the same steps on the rewriter itself raise nothing and reach the replayed graph up to keys |
| Bfs.Frontier | src/smgp/reasoning/planner.py:164-174 | every path to an unvisited node passes through the queue |
| Bfs.FreshOrder | src/smgp/reasoning/planner.py:171-174 | the new neighbours are taken in the order in which they first occur |
| Bfs.RoundLayered | src/smgp/reasoning/planner.py:164-174 | one round keeps: labels are exact distances, the queue is ordered and spans two layers, everything dequeued has its successors labelled |
| Bfs.Exhausted | src/smgp/reasoning/planner.py:164-176 | nothing unvisited is reachable once the queue is empty |
| PathSearch.Enqueue | src/smgp/reasoning/planner.py:171-174 | exactly the unvisited neighbours are marked and queued, once, in order |
| PathSearch.FindPathCorrect | src/smgp/reasoning/planner.py:148-176 | the returned path is valid and of minimum length; None iff an endpoint is missing or the target is unreachable |
| PathSearch.PlannerFindPath | src/smgp/reasoning/planner.py:148-176 | terminates with that result after at most one dequeue per node |
| PathSearch.BudgetMonotone | src/smgp/reasoning/verifier.py:106-118 | a larger budget never changes a path that was found |
| PathSearch.BudgetedAgrees | src/smgp/reasoning/verifier.py:86-120 | any path `find_path` returns is the planner's; with `max_depth` >= number of nodes the two agree completely |
| PathSearch.FindPathBudget | src/smgp/reasoning/verifier.py:106-118 | a target at distance k needs more dequeues than there are nodes nearer than k, and as many as there are nodes within k suffice |
| SearchOrder.OrderCorrect | src/smgp/reasoning/verifier.py:102-118 | the breadth-first order lists exactly the reachable nodes, each once, nearest first |
| SearchOrder.FindPathExact | src/smgp/reasoning/verifier.py:86-120 | a target is found iff its position in that order is below `max_depth` |
| SearchOrder.FindsWithin | src/smgp/reasoning/verifier.py:86-120 | every node within distance k is found iff `max_depth` is at least the number of nodes within distance k |
| PathSearch.DepthOneMissesNeighbour | src/smgp/reasoning/verifier.py:94-118 | with `max_depth` 1 a direct neighbour is not found |
| PathSearch.VerifierFindPath | src/smgp/reasoning/verifier.py:86-120 | the loop with its depth counter is the budgeted search, for negative bounds too |
| Traversal.EnqueueRow | src/smgp/enhanced/speed/accelerated.py:127-130 | exactly the unseen columns with a non-zero entry are queued, ascending |
| Traversal.RowElements | src/smgp/enhanced/speed/accelerated.py:127-130 | the neighbours of u are the columns with a non-zero entry in row u, ascending |
| Traversal.TraversalCorrect | src/smgp/enhanced/speed/accelerated.py:96-132 | lists exactly the vertices at distance at most `max_depth`, each once, in nondecreasing distance |
| Traversal.FastGraphTraversal | src/smgp/enhanced/speed/accelerated.py:116-132 | the loop terminates with that list, for every square matrix, valid start and bound |
| EventReplay.RunInvariant | src/smgp/memory/event_log.py:226-313 | over every run the graph stays valid, its keys come from the log, and erasing edge removals changes no node |
| EventReplay.RunIsFiltered | src/smgp/memory/event_log.py:303-313 | the run's edges are those of its erasure minus the removed keys, in order |
| EventReplay.ErasedEdges | src/smgp/memory/event_log.py:372-388 | an edge is in the erased run iff it was added and neither end was removed afterwards |
| EventReplay.ErasedLogged | src/smgp/memory/event_log.py:372-388 | an edge is in the erased run iff it runs from the logged source to the logged target with the logged relation and properties, and neither was removed since |
| EventReplay.NodesLogged | src/smgp/memory/event_log.py:364-383 | a node is there iff the last event about it added it, and has the label, properties and vector logged then |
| EventReplay.CompensatedIff | src/smgp/memory/event_log.py:384-388 | no edge of the erased run was removed by key iff every removed edge later lost an end |
| EventReplay.ExactIff | src/smgp/memory/event_log.py:346-393 | the rebuilt bag of edges is the run's iff every edge removed by key later lost an end |
| EventReplay.NothingRemoved | src/smgp/memory/event_log.py:346-393 | without edge removals the erased run is the run |
| EventReplay.RemovedEdgeReturns | src/smgp/memory/event_log.py:384-388 | a log after which replay brings a removed edge back |
| EventLog.EventSourcedGraph.AddNode | src/smgp/memory/event_log.py:226-258 | the node has the given label, properties and vector, no other node and no edge changes; the vector actually stored is logged; the log still tells the graph |
| EventLog.EventSourcedGraph.AddEdge | src/smgp/memory/event_log.py:260-289 | KeyError and nothing changed iff an end is missing; otherwise one more edge from source to target with the relation and properties given, under the returned and logged key; the log still tells the graph |
| EventLog.EventSourcedGraph.RemoveNode | src/smgp/memory/event_log.py:291-301 | logs iff the node was there; exactly the node and the edges from or to it go; the log still tells the graph |
| EventLog.EventSourcedGraph.RemoveEdge | src/smgp/memory/event_log.py:303-313 | logs iff the key was in use; exactly the edge with the key goes; the log still tells the graph |
| EventLog.ReplayEvent | src/smgp/memory/event_log.py:361-390 | one event keeps the rebuilt graph equal to the erased run up to keys; a logged key is never found |
| EventLog.ReplayFrom | src/smgp/memory/event_log.py:346-393 | never fails, leaves the log alone, rebuilds the same nodes, and as edges up to keys exactly those logged, from logged source to logged target, that have not lost an end since; exact iff removals are compensated |
| Stability.SortStable | src/smgp/core/graph.py:226 | sorting keeps equivalent elements in their order |
| Stability.StableUnique | src/smgp/core/graph.py:226 | a sorted list is determined by its elements and the order of equivalent ones, so every stable sort gives the same |
| Ranking.TopKIff | src/smgp/core/graph.py:226-227 | the top k is the one list of min(k, n) hits which some rest completes to all hits, best first and equal scores in the given order |
| Ranking.TopKMeaning | src/smgp/core/graph.py:226-227 | min(k, n) hits, best first; what is left out scores no higher than anything listed; of equal scores the earlier are listed |
| Ranking.SortAppend | src/smgp/core/distributed.py:224-226 | stable sorting of a concatenation is the left-biased merge of the sorted parts |
| Ranking.MergedTopK | src/smgp/core/distributed.py:218-226 | the top k of the parts' top-k lists is the stable top k of everything |
| Ranking.QuerySimilar | src/smgp/core/graph.py:204-227 | the first k, best first and equal scores in node order, of the hits below |
| Ranking.HitsExact | src/smgp/core/graph.py:220-225 | the hits are exactly the nodes with the wanted label (any, if empty), each with the score of its own vector, in node order |
| Sharding.HomeNode | src/smgp/core/distributed.py:99-104 | writing a node on its home shard writes it in the flat node map |
| Sharding.GhostNode | src/smgp/core/distributed.py:146-164 | a copy on another shard is invisible to the flat map |
| Sharding.LocalEdge | src/smgp/core/distributed.py:140-144 | an edge inside one shard keeps every cross-shard pair's copies equal |
| Sharding.CrossEdge | src/smgp/core/distributed.py:165-171 | so does a cross-shard edge, added on both sides |
| Sharding.WithEdgeMirrored | src/smgp/core/distributed.py:140-171 | adding an edge, ghosts included, keeps every cross-shard pair's copies equal |
| Sharding.RemovalMirrored | src/smgp/core/distributed.py:191-202 | after a removal all pairs' copies still agree iff the node had no cross-shard edge, out or in |
| Sharding.RemovalLeavesCopy | src/smgp/core/distributed.py:191-202 | a node with one incoming cross-shard edge whose removal leaves the other copy |
| Sharding.WithEdgeOn | src/smgp/core/distributed.py:140-171 | the edge is appended on both home shards and nowhere else, under the first fresh key on the source's |
| Sharding.WithEdgeCopied | src/smgp/core/distributed.py:146-164 | each end missing from the other's home shard is copied there with its own label, properties and vector; every other node of every shard stays as it was |
| Sharding.DistributedGraphBackend.AddNode | src/smgp/core/distributed.py:81-104 | the home shard and the flat map get the node, no other shard changes; copies that agreed still agree |
| Sharding.DistributedGraphBackend.ReplicateEnds | src/smgp/core/distributed.py:146-164 | copies exactly the ends that are missing, each with the data of its own home shard; no edge changes |
| Sharding.DistributedGraphBackend.AddEdge | src/smgp/core/distributed.py:106-177 | KeyError, with nothing changed, iff an end is missing; otherwise ghosts with their home shard's data and edges as above under two fresh keys, returning the source shard's; the flat map is unchanged; copies that agreed still agree |
| Sharding.DistributedGraphBackend.RemoveNode | src/smgp/core/distributed.py:191-202 | KeyError iff the flat map lacks it; otherwise the home shard alone loses the node and its edges; copies that agreed still agree iff nothing was removed or the node had no cross-shard edge |
| Sharding.DistributedGraphBackend.GetNode | src/smgp/core/distributed.py:179-189 | over every run answers as one flat node map |
| Sharding.DistributedGraphBackend.QueryTopK | src/smgp/core/distributed.py:204-226 | the first k, best first and equal scores in shard and node order, of all nodes any shard holds, copies included |
| MemoryMapper.NextSlot | hardware/sw/smgp_hal/memory_mapper.py:58-59 | in a packed layout the next address is the first free row, on the last tile or a new one |
| MemoryMapper.DefragmentPacks | hardware/sw/smgp_hal/memory_mapper.py:92-103 | from any layout: full tiles but the last, same entries in the same order |
| MemoryMapper.AllocatePacked | hardware/sw/smgp_hal/memory_mapper.py:49-75 | keeps the packing, overflow included, appends one entry, and that entry is at the returned address |
| MemoryMapper.FreshAddress | hardware/sw/smgp_hal/memory_mapper.py:49-75 | looking up a hash that was not stored before gives the address just returned |
| MemoryMapper.RotatePacked | hardware/sw/smgp_hal/memory_mapper.py:105-112 | rotation keeps the packing iff there is at most one tile or the last tile is full |
| MemoryMapper.RunPacked | hardware/sw/smgp_hal/memory_mapper.py:49-112 | the layout is packed throughout a run iff each rotation met that condition |
| MemoryMapper.RunConserves | hardware/sw/smgp_hal/memory_mapper.py:49-112 | after any run the stored entries are exactly the allocated ones |
| MemoryMapper.RunWrites | hardware/sw/smgp_hal/memory_mapper.py:49-75 | over any run a tile's write count is the number of allocations that returned an address on it |
| MemoryMapper.AddressRight | hardware/sw/smgp_hal/memory_mapper.py:49-75 | from any layout, a hash not stored before is at the returned address iff that is a free row, after compaction if the allocation overflows |
| MemoryMapper.RotatedAddress | hardware/sw/smgp_hal/memory_mapper.py:49-112 | right after rotating a packed layout the address is right iff there was at most one tile, the last was full, or the allocation overflows |
| MemoryMapper.RotationMisplaces | hardware/sw/smgp_hal/memory_mapper.py:105-112 | three allocations and a rotation after which the next address is wrong |
| MemoryMapper.Mapper.Defrag | hardware/sw/smgp_hal/memory_mapper.py:92-103 | the method is the compaction above |
| MemoryMapper.Mapper.AllocateNode | hardware/sw/smgp_hal/memory_mapper.py:49-75 | state and address are those of the allocation above, write counts included |
| MemoryMapper.Mapper.WearLevel | hardware/sw/smgp_hal/memory_mapper.py:105-112 | tile by tile: the first becomes the last, all others move up by one, the next address is the number of entries, write counts stay |
| MemoryMapper.Mapper.GetAddress | hardware/sw/smgp_hal/memory_mapper.py:114-128 | the first row that holds the hash, or None iff none does |
| RateLimiter.RecentTwice | src/smgp/integration/api_auth.py:187-189 | pruning now changes no later pruning |
| RateLimiter.RecentExact | src/smgp/integration/api_auth.py:189 | pruning keeps exactly the times within the window: as many as there are positions within it, and no other time |
| RateLimiter.AdmitSpaced | src/smgp/integration/api_auth.py:189-195 | an admission below the limit m keeps any m + 1 successive admissions a window apart |
| RateLimiter.Limiter.Request | src/smgp/integration/api_auth.py:186-196 | admitted iff fewer than the limit of all the client's admissions ever lie within the window; the spacing is kept over every run; no other client is touched |
| FixedPoint.Digit | hardware/sim/models/gold_spectral_model.py:79-85 | one digit keeps root^2 + rem equal to the bits read and rem <= 2 root |
| FixedPoint.PairOfLow | hardware/sim/models/gold_spectral_model.py:78-79 | the bit pairs read are those of the low 64 bits, and there is nothing above them |
| FixedPoint.Root | hardware/sim/models/gold_spectral_model.py:75-85 | the loop ends with root^2 <= y < (root + 1)^2 for the low 64 bits y |
| FixedPoint.FpSqrt | hardware/sim/models/gold_spectral_model.py:71-86 | 0 for x <= 0; otherwise r^2 s <= y < (r + 1)^2 s for the low 64 bits y and s = 4^(frac_bits // 2); for even f the bounds r^2 2^f <= x < (r + 1)^2 2^f hold iff x < 2^max(64, f) |
| FixedPoint.RootUnique | hardware/sim/models/gold_spectral_model.py:71-86 | those bounds leave one r |
| FixedPoint.RootBounds | hardware/sim/models/gold_spectral_model.py:71-86 | for every even frac_bits f the bounds r^2 2^f <= x < (r + 1)^2 2^f hold iff x < 2^max(64, f) |

## Left out

- Distances, similarities and vectors are given values: norms, cosine similarity, eigensolvers, Laplacians and HD algebra are floating-point library calls. Reals stand for floats; NaN, infinities and rounding are not modelled.
- The GUDHI branch of `compute_persistence` and Betti numbers: an optional external library, and a count of the diagram.
- Wasserstein orders other than the default p = 1: irrational powers.
- Topology.PruneByPersistence: takes the distance matrix as given and symmetric, as `compute_distance_matrix` builds it; a cached matrix of another size is not modelled.
- Multigraph edges are listed oldest first, networkx lists them by source node. Where copies, pruning, rewriting and replay are said to have equal edge lists, the order is that of this listing; for the code read them as equal bags of edges, which they imply.
- Multigraph properties are values: sharing one dictionary between a graph and its copies is not modelled.
- Generated ids are `Generated(count, index)`; a user's own string of the form `gen_3_1` is the same id by convention of the model. Vectors drawn by a seeded engine are named by seed and draw number.
- Matching: patterns whose edges point outside their node list and constraints on the key `vector` are excluded; the first raises, the second compares arrays.
- GraphRewriter.GraphRewriter.CheckGluing: scans the edge list rather than each deleted node's neighbours; the order in which violations would be met is not modelled, only whether there is one.
- Rewriting: edges of L\K between preserved nodes are not deleted by the code, so nothing is said about deleting them; the dangling condition of the theory is checked by the code for preserved successors only and is modelled as it is.
- PathSearch, Traversal: neighbour lists and the dense matrix are given; conversion from sparse matrices is left out.
- EventLog: the JSONL and SQLite stores, JSON encoding and the int8 cast of vectors are left out, the log is a list of events. Logs that did not start with an empty graph, `clear()` and unknown event types are left out.
- Sharding: MD5 is an arbitrary total function into the shards. Copies on foreign shards stay after `remove_node` and after the home node is overwritten; QueryTopK includes them, as the code does.
- Ranking.QuerySimilar: k >= 0 only; a negative k would slice from the end.
- MemoryMapper: node ids are given by their hashes; two ids with one hash share an address as in the code. `allocate_edge` and `utilization` would add easy members.
- RateLimiter: the middleware, its response and the real clock are left out; the clock is a nondecreasing parameter.
- FixedPoint: saturating `fp_mul`, `fp_add`, `fp_sub` are single expressions; `fp_reciprocal` and the Chebyshev recurrence make no claim that holds.
- Node lookup, subgraph extraction, adjacency matrices, statistics, planning heuristics, claim parsing, federation, web, storage and hardware drivers: easy members or input and output.
