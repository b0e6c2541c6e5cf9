/** Similarity queries: stable top-k lists and their merge
    (graph.py:204-227, distributed.py:204-226). */
module Ranking {
  import opened MemoryGraph
  import opened Multigraph
  import opened Sorting
  import opened Stability

  datatype Hit = Hit(id: Id, score: real)

  /** Descending by score. */
  predicate Better(a: Hit, b: Hit) {
    a.score >= b.score
  }

  function Take<T>(k: nat, s: seq<T>): seq<T> {
    if |s| <= k then s else s[..k]
  }

  /** list.sort(key=score, reverse=True) keeps equal scores in order; then [:k]. */
  function TopK(k: nat, hits: seq<Hit>): seq<Hit> {
    Take(k, Sort(Better, hits))
  }

  // ---- what the top k are ----

  /** Best first and equal scores in the given order, r and then rest are all the hits. */
  ghost predicate Splits(hits: seq<Hit>, r: seq<Hit>, rest: seq<Hit>) {
    Sorted(Better, r + rest) && SameTies(Better, r + rest, hits)
  }

  /** r is the first k of the hits, best first, equal scores in the given order. */
  ghost predicate IsTopK(k: nat, hits: seq<Hit>, r: seq<Hit>) {
    |r| == (if k < |hits| then k else |hits|) && exists rest :: Splits(hits, r, rest)
  }

  lemma SplitsSort(hits: seq<Hit>, r: seq<Hit>, rest: seq<Hit>)
    requires Splits(hits, r, rest)
    ensures r + rest == Sort(Better, hits)
  {
    var all := Sort(Better, hits);
    assert TotalPreorder(Better);
    SortCorrect(Better, hits);
    SortStable(Better, hits);
    forall x ensures Ties(Better, x, r + rest) == Ties(Better, x, all) {
      assert Ties(Better, x, r + rest) == Ties(Better, x, hits);
    }
    StableUnique(Better, r + rest, all);
  }

  lemma SortSplits(hits: seq<Hit>, n: nat)
    requires n <= |Sort(Better, hits)|
    ensures Splits(hits, Sort(Better, hits)[..n], Sort(Better, hits)[n..])
  {
    var all := Sort(Better, hits);
    assert TotalPreorder(Better);
    SortCorrect(Better, hits);
    SortStable(Better, hits);
    assert all[..n] + all[n..] == all;
  }

  lemma TopKIff(k: nat, hits: seq<Hit>, r: seq<Hit>)
    ensures IsTopK(k, hits, r) <==> r == TopK(k, hits)
  {
    var all := Sort(Better, hits);
    var n := if k < |all| then k else |all|;
    assert TotalPreorder(Better);
    SortCorrect(Better, hits);
    SortSplits(hits, n);
    hide Splits, Sort, Sorted;
    assert all[..n] == TopK(k, hits);
    if IsTopK(k, hits, r) {
      var rest :| Splits(hits, r, rest);
      SplitsSort(hits, r, rest);
      assert (r + rest)[..n] == r;
    }
  }

  /** Of the hits that tie with x the first few are listed, and if any is left out then
      everything listed scores at least as much. */
  ghost predicate TiesListed(hits: seq<Hit>, r: seq<Hit>, x: Hit) {
    && Ties(Better, x, r) <= Ties(Better, x, hits)
    && (Ties(Better, x, r) != Ties(Better, x, hits) ==> forall h :: h in r ==> h.score >= x.score)
  }

  /** min(k, n) hits, best first; what is left out scores no higher; ties go to the earlier. */
  lemma TopKMeaning(k: nat, hits: seq<Hit>)
    ensures |TopK(k, hits)| == if k < |hits| then k else |hits|
    ensures forall i, j :: 0 <= i < j < |TopK(k, hits)| ==> TopK(k, hits)[i].score >= TopK(k, hits)[j].score
    ensures forall x :: TiesListed(hits, TopK(k, hits), x)
  {
    var r := TopK(k, hits);
    TopKIff(k, hits, r);
    var rest :| Splits(hits, r, rest);
    assert forall i :: 0 <= i < |r| ==> (r + rest)[i] == r[i];
    forall x ensures TiesListed(hits, r, x) {
      TiesAppend(Better, x, r, rest);
      assert Ties(Better, x, r + rest) == Ties(Better, x, hits);
      if Ties(Better, x, r) != Ties(Better, x, hits) {
        var j := TiesElement(Better, x, rest);
        forall h | h in r ensures h.score >= x.score {
          var i :| 0 <= i < |r| && r[i] == h;
          assert Better((r + rest)[i], (r + rest)[|r| + j]);
        }
      }
    }
  }

  // ---- sorting a concatenation is merging ----

  ghost function Merge(x: seq<Hit>, y: seq<Hit>): seq<Hit> {
    if |x| == 0 then y
    else if |y| == 0 then x
    else if Better(x[0], y[0]) then [x[0]] + Merge(x[1..], y)
    else [y[0]] + Merge(x, y[1..])
  }

  lemma {:induction false} InsertMerge(h: Hit, x: seq<Hit>, y: seq<Hit>)
    requires Sorted(Better, x) && Sorted(Better, y)
    ensures Insert(Better, h, Merge(x, y)) == Merge(Insert(Better, h, x), y)
    decreases |x| + |y|
  {
    if |y| == 0 {
    } else if |x| == 0 {
      if !Better(h, y[0]) {
        InsertMerge(h, x, y[1..]);
      }
    } else if Better(x[0], y[0]) {
      InsertMerge(h, x[1..], y);
      assert ([h] + x)[1..] == x;
    } else {
      InsertMerge(h, x, y[1..]);
      assert ([h] + x)[1..] == x;
    }
  }

  lemma {:induction false} SortAppend(a: seq<Hit>, b: seq<Hit>)
    ensures Sort(Better, a + b) == Merge(Sort(Better, a), Sort(Better, b))
  {
    if |a| == 0 {
      assert a + b == b;
    } else {
      assert (a + b)[1..] == a[1..] + b;
      SortAppend(a[1..], b);
      assert TotalPreorder(Better);
      SortCorrect(Better, a[1..]);
      SortCorrect(Better, b);
      InsertMerge(a[0], Sort(Better, a[1..]), Sort(Better, b));
    }
  }

  /** The first k of a merge come from the first k of either side. */
  lemma {:induction false} TakeMerge(k: nat, x: seq<Hit>, y: seq<Hit>)
    ensures Take(k, Merge(x, y)) == Take(k, Merge(Take(k, x), Take(k, y)))
    decreases k, |x| + |y|
  {
    if k > 0 && |x| > 0 && |y| > 0 {
      TakeTail(k, x);
      TakeTail(k, y);
      if Better(x[0], y[0]) {
        TakeMerge(k - 1, x[1..], y);
        TakeMerge(k - 1, Take(k, x)[1..], Take(k, y));
        TakeCons(k, x[0], Merge(x[1..], y));
        TakeCons(k, x[0], Merge(Take(k, x)[1..], Take(k, y)));
      } else {
        TakeMerge(k - 1, x, y[1..]);
        TakeMerge(k - 1, Take(k, x), Take(k, y)[1..]);
        TakeCons(k, y[0], Merge(x, y[1..]));
        TakeCons(k, y[0], Merge(Take(k, x), Take(k, y)[1..]));
      }
    }
  }

  lemma TakeTail(k: nat, s: seq<Hit>)
    requires k > 0 && |s| > 0
    ensures |Take(k, s)| > 0 && Take(k, s)[0] == s[0]
    ensures Take(k - 1, Take(k, s)[1..]) == Take(k - 1, s[1..])
    ensures Take(k - 1, Take(k, s)) == Take(k - 1, s)
  {
  }

  lemma TakeCons(k: nat, h: Hit, s: seq<Hit>)
    requires k > 0
    ensures Take(k, [h] + s) == [h] + Take(k - 1, s)
  {
  }

  ghost function Concat(lists: seq<seq<Hit>>): seq<Hit> {
    if |lists| == 0 then [] else lists[0] + Concat(lists[1..])
  }

  ghost function TopKs(k: nat, lists: seq<seq<Hit>>): seq<seq<Hit>> {
    seq(|lists|, i requires 0 <= i < |lists| => TopK(k, lists[i]))
  }

  lemma TopKSorted(k: nat, a: seq<Hit>)
    ensures Sort(Better, TopK(k, a)) == TopK(k, a)
  {
    assert TotalPreorder(Better);
    SortCorrect(Better, a);
    SortSorted(Better, TopK(k, a));
  }

  /** Only the top k of each part matter. */
  lemma TopKAppend(k: nat, a: seq<Hit>, b: seq<Hit>, c: seq<Hit>)
    requires TopK(k, c) == TopK(k, b)
    ensures TopK(k, TopK(k, a) + c) == TopK(k, a + b)
  {
    SortAppend(a, b);
    SortAppend(TopK(k, a), c);
    TopKSorted(k, a);
    TakeMerge(k, Sort(Better, a), Sort(Better, b));
    TakeMerge(k, TopK(k, a), Sort(Better, c));
    assert Take(k, TopK(k, a)) == TopK(k, a);
  }

  /** Merging the top-k lists of the parts gives the top k of the whole. */
  lemma {:induction false} MergedTopK(k: nat, lists: seq<seq<Hit>>)
    ensures TopK(k, Concat(TopKs(k, lists))) == TopK(k, Concat(lists))
  {
    if |lists| > 0 {
      MergedTopK(k, lists[1..]);
      assert TopKs(k, lists)[1..] == TopKs(k, lists[1..]);
      TopKAppend(k, lists[0], Concat(lists[1..]), Concat(TopKs(k, lists[1..])));
    }
  }

  // ---- one graph ----

  /** The nodes of the wanted label ("" for any) with their similarity, in node order. */
  function Hits(order: seq<Id>, nodes: map<Id, Node>, sim: Vector -> real, kind: string): seq<Hit> {
    if |order| == 0 then []
    else
      var id := order[|order| - 1];
      Hits(order[..|order| - 1], nodes, sim, kind)
      + (if id in nodes && (kind == "" || nodes[id].tag == kind) then [Hit(id, sim(nodes[id].vector))] else [])
  }

  /** The node at position i has the wanted label. */
  ghost predicate Wanted(order: seq<Id>, nodes: map<Id, Node>, kind: string, i: nat) {
    i < |order| && order[i] in nodes && (kind == "" || nodes[order[i]].tag == kind)
  }

  /** h is that node's id with the score of its vector. */
  ghost predicate ListedAs(order: seq<Id>, nodes: map<Id, Node>, sim: Vector -> real, kind: string, i: nat, h: Hit) {
    Wanted(order, nodes, kind, i) && h.id == order[i] && h.score == sim(nodes[order[i]].vector)
  }

  /** The hits are exactly the wanted nodes with their own scores, in node order. */
  lemma {:induction false} HitsExact(order: seq<Id>, nodes: map<Id, Node>, sim: Vector -> real, kind: string)
    ensures forall h :: h in Hits(order, nodes, sim, kind) <==>
                          exists i: nat :: ListedAs(order, nodes, sim, kind, i, h)
    ensures InOrder(order, Hits(order, nodes, sim, kind))
  {
    if |order| > 0 {
      var n := |order| - 1;
      var before, hits := Hits(order[..n], nodes, sim, kind), Hits(order, nodes, sim, kind);
      HitsExact(order[..n], nodes, sim, kind);
      forall i: nat, h | i < n
        ensures ListedAs(order, nodes, sim, kind, i, h) <==> ListedAs(order[..n], nodes, sim, kind, i, h)
      {
      }
      forall h ensures h in hits <==> exists i: nat :: ListedAs(order, nodes, sim, kind, i, h) {
        assert h in hits <==> h in before || ListedAs(order, nodes, sim, kind, n, h);
      }
      forall a, b | 0 <= a < b < |hits| ensures Before(order, hits[a].id, hits[b].id) {
        if b < |before| {
          assert Before(order[..n], before[a].id, before[b].id);
          var i, j :| 0 <= i < j < n && order[..n][i] == before[a].id && order[..n][j] == before[b].id;
          assert order[i] == hits[a].id && order[j] == hits[b].id;
        } else {
          assert before[a] in before;
          var i: nat :| ListedAs(order[..n], nodes, sim, kind, i, before[a]);
          assert order[i] == hits[a].id && order[n] == hits[b].id;
        }
      }
    }
  }

  ghost predicate InOrder(order: seq<Id>, hits: seq<Hit>) {
    forall a, b :: 0 <= a < b < |hits| ==> Before(order, hits[a].id, hits[b].id)
  }

  method QuerySimilar(g: SpectralMemoryGraph, sim: Vector -> real, k: nat, kind: string) returns (hits: seq<Hit>)
    requires Valid(g.State())
    ensures hits == TopK(k, Hits(g.order, g.nodes, sim, kind))
    ensures IsTopK(k, Hits(g.order, g.nodes, sim, kind), hits)
  {
    var candidates: seq<Hit> := [];
    for i := 0 to |g.order|
      invariant candidates == Hits(g.order[..i], g.nodes, sim, kind)
    {
      var nid := g.order[i];
      assert nid in g.order;
      assert g.order[..i + 1][..i] == g.order[..i];
      var data := g.nodes[nid];
      if kind != "" && data.tag != kind {
        continue;
      }
      candidates := candidates + [Hit(nid, sim(data.vector))];
    }
    assert g.order[..|g.order|] == g.order;
    hits := TopK(k, candidates);
    TopKIff(k, candidates, hits);
  }
}
