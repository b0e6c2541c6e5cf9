/** Python's `list.sort` is stable. By StableUnique any stable sort computes the same
    list, so the model may use insertion. */
module Stability {
  import opened Sorting

  /** The elements of s equivalent to x, in their order. */
  ghost function Ties<T(!new)>(leq: (T, T) -> bool, x: T, s: seq<T>): seq<T> {
    if |s| == 0 then []
    else (if leq(x, s[0]) && leq(s[0], x) then [s[0]] else []) + Ties(leq, x, s[1..])
  }

  /** t has the same elements as s, equivalent ones in the same order. */
  ghost predicate SameTies<T(!new)>(leq: (T, T) -> bool, s: seq<T>, t: seq<T>) {
    forall x :: Ties(leq, x, s) == Ties(leq, x, t)
  }

  lemma {:induction false} InsertTies<T(!new)>(leq: (T, T) -> bool, x: T, y: T, s: seq<T>)
    requires TotalPreorder(leq)
    ensures Ties(leq, x, Insert(leq, y, s)) == Ties(leq, x, [y] + s)
  {
    assert ([y] + s)[1..] == s;
    if |s| > 0 && !leq(y, s[0]) {
      InsertTies(leq, x, y, s[1..]);
      assert ([y] + s[1..])[1..] == s[1..];
      assert ([s[0]] + Insert(leq, y, s[1..]))[1..] == Insert(leq, y, s[1..]);
    }
  }

  /** Sorting keeps the order of equivalent elements. */
  lemma {:induction false} SortStable<T(!new)>(leq: (T, T) -> bool, s: seq<T>)
    requires TotalPreorder(leq)
    ensures SameTies(leq, Sort(leq, s), s)
  {
    if |s| > 0 {
      SortStable(leq, s[1..]);
      forall x ensures Ties(leq, x, Sort(leq, s)) == Ties(leq, x, s) {
        InsertTies(leq, x, s[0], Sort(leq, s[1..]));
        assert ([s[0]] + Sort(leq, s[1..]))[1..] == Sort(leq, s[1..]);
        assert Ties(leq, x, Sort(leq, s[1..])) == Ties(leq, x, s[1..]);
      }
    }
  }

  lemma {:induction false} TiesElement<T(!new)>(leq: (T, T) -> bool, x: T, s: seq<T>) returns (k: nat)
    requires |Ties(leq, x, s)| > 0
    ensures k < |s| && leq(x, s[k]) && leq(s[k], x)
  {
    if leq(x, s[0]) && leq(s[0], x) {
      k := 0;
    } else {
      var l := TiesElement(leq, x, s[1..]);
      k := l + 1;
    }
  }

  lemma HeadLeast<T(!new)>(leq: (T, T) -> bool, a: seq<T>, b: seq<T>)
    requires TotalPreorder(leq) && Sorted(leq, b) && SameTies(leq, a, b) && |a| > 0
    ensures |b| > 0 && leq(b[0], a[0])
  {
    assert leq(a[0], a[0]);
    assert Ties(leq, a[0], a) == Ties(leq, a[0], b);
    var k := TiesElement(leq, a[0], b);
    assert leq(b[0], b[k]);
  }

  /** A sorted list is determined by its elements and the order of equivalent ones. */
  lemma {:induction false} StableUnique<T(!new)>(leq: (T, T) -> bool, a: seq<T>, b: seq<T>)
    requires TotalPreorder(leq) && Sorted(leq, a) && Sorted(leq, b) && SameTies(leq, a, b)
    ensures a == b
  {
    if |a| > 0 {
      HeadLeast(leq, a, b);
      HeadLeast(leq, b, a);
      assert Ties(leq, a[0], a) == Ties(leq, a[0], b);
      assert Ties(leq, a[0], a)[0] == a[0] && Ties(leq, a[0], b)[0] == b[0];
      forall x ensures Ties(leq, x, a[1..]) == Ties(leq, x, b[1..]) {
        assert Ties(leq, x, a) == Ties(leq, x, b);
        var n := if leq(x, a[0]) && leq(a[0], x) then 1 else 0;
        assert Ties(leq, x, a)[n..] == Ties(leq, x, a[1..]) && Ties(leq, x, b)[n..] == Ties(leq, x, b[1..]);
      }
      StableUnique(leq, a[1..], b[1..]);
      assert a == [a[0]] + a[1..] && b == [b[0]] + b[1..];
    } else if |b| > 0 {
      HeadLeast(leq, b, a);
    }
  }

  lemma {:induction false} TiesAppend<T(!new)>(leq: (T, T) -> bool, x: T, a: seq<T>, b: seq<T>)
    ensures Ties(leq, x, a + b) == Ties(leq, x, a) + Ties(leq, x, b)
  {
    var s := a + b;
    if |a| == 0 {
      assert s == b;
    } else {
      assert s[1..] == a[1..] + b && s[0] == a[0];
      TiesAppend(leq, x, a[1..], b);
      var head := if leq(x, a[0]) && leq(a[0], x) then [a[0]] else [];
      var t, u := Ties(leq, x, a[1..]), Ties(leq, x, b);
      assert Ties(leq, x, s) == head + (t + u) && Ties(leq, x, a) == head + t;
      assert head + (t + u) == (head + t) + u;
    }
  }
}
