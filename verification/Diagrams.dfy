/** Persistence bars and weighted index pairs, shared by the H0 computation
    and the diagram distance of topology.py. */
module Diagrams {
  import opened Sorting

  datatype Bar = Bar(birth: real, death: real)

  /** A tuple (weight, i, j); Python orders such tuples lexicographically. */
  datatype Triple = Triple(w: real, i: nat, j: nat)

  predicate LexLeq(a: Triple, b: Triple) {
    a.w < b.w || (a.w == b.w && (a.i < b.i || (a.i == b.i && a.j <= b.j)))
  }

  /** No heavier; as heavy, no later in i; equal in both, no later in j. */
  ghost predicate Earlier(a: Triple, b: Triple) {
    a.w <= b.w && (a.w == b.w ==> a.i <= b.i) && (a.w == b.w && a.i == b.i ==> a.j <= b.j)
  }

  function SortTriples(s: seq<Triple>): seq<Triple> {
    Sort(LexLeq, s)
  }

  lemma SortTriplesCorrect(s: seq<Triple>)
    ensures |SortTriples(s)| == |s|
    ensures forall a, b :: 0 <= a < b < |s| ==> LexLeq(SortTriples(s)[a], SortTriples(s)[b])
    ensures forall a, b :: 0 <= a < b < |s| ==> Earlier(SortTriples(s)[a], SortTriples(s)[b])
    ensures forall t :: t in SortTriples(s) <==> t in s
    ensures Distinct(s) ==> Distinct(SortTriples(s))
  {
    assert TotalPreorder(LexLeq);
    SortCorrect(LexLeq, s);
    SameElements(s, SortTriples(s));
    if Distinct(s) { DistinctPermuted(s, SortTriples(s)); }
  }

  /** A sorted list of distinct triples is determined by its elements. */
  lemma {:induction false} SortedUnique(s: seq<Triple>, t: seq<Triple>)
    requires Distinct(s) && Distinct(t)
    requires forall x :: x in s <==> x in t
    requires forall a, b :: 0 <= a < b < |s| ==> LexLeq(s[a], s[b])
    requires forall a, b :: 0 <= a < b < |t| ==> LexLeq(t[a], t[b])
    ensures s == t
  {
    if |t| > 0 {
      assert t[0] in t;
    }
    if |s| > 0 {
      var x := s[|s| - 1];
      assert x in s && x in t;
      var k :| 0 <= k < |t| && t[k] == x;
      var y := t[|t| - 1];
      assert y in t && y in s;
      var l :| 0 <= l < |s| && s[l] == y;
      var s', t' := s[..|s| - 1], t[..|t| - 1];
      assert LexLeq(x, y) && LexLeq(y, x);
      assert s == s' + [x] && t == t' + [x];
      forall z ensures z in s' <==> z in t' {
        assert z in s <==> z in s' || z == x;
        assert z in t <==> z in t' || z == x;
      }
      SortedUnique(s', t');
    }
  }
}
