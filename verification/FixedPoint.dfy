/** The digit-by-digit square root of gold_spectral_model.py:71-86. */
module FixedPoint {
  import opened Arithmetic

  /** 4^k = (2^k)^2, the weight of bit pair k. */
  function Pow4(k: nat): (r: nat)
    ensures r >= 1
  {
    if k == 0 then 1 else 4 * Pow4(k - 1)
  }

  lemma {:induction false} Pow4Square(k: nat)
    ensures Pow4(k) == Pow2(k) * Pow2(k)
  {
    if k > 0 {
      Pow4Square(k - 1);
      var p := Pow2(k - 1);
      assert (2 * p) * (2 * p) == 4 * (p * p);
    }
  }

  /** x >> 2i. */
  function Shift(x: nat, i: nat): nat {
    if i == 0 then x else Shift(x / 4, i - 1)
  }

  /** The low i bit pairs of x. */
  ghost function Low(x: nat, i: nat): nat {
    if i == 0 then 0 else 4 * Low(x / 4, i - 1) + x % 4
  }

  lemma {:induction false} ShiftNext(x: nat, i: nat)
    ensures Shift(x, i + 1) == Shift(x, i) / 4
  {
    if i > 0 {
      ShiftNext(x / 4, i - 1);
    }
  }

  /** Shift and Low are the quotient and the remainder by 4^i. */
  lemma {:induction false} ShiftLow(x: nat, i: nat)
    ensures x == Shift(x, i) * Pow4(i) + Low(x, i) && Low(x, i) < Pow4(i)
    ensures Shift(x, i) == x / Pow4(i) && Low(x, i) == x % Pow4(i)
  {
    if i > 0 {
      ShiftLow(x / 4, i - 1);
      Regroup4(Shift(x, i), Pow4(i - 1));
    }
    DivUnique(x, Pow4(i), Shift(x, i), Low(x, i));
  }

  lemma Regroup4(a: nat, b: nat)
    ensures 4 * (a * b) == a * (4 * b)
  {
  }

  /** The low pairs have the pairs of x and nothing above. */
  lemma {:induction false} PairOfLow(x: nat, i: nat, n: nat)
    requires i <= n
    ensures i < n ==> Shift(Low(x, n), i) % 4 == Shift(x, i) % 4
    ensures i == n ==> Shift(Low(x, n), i) == 0
  {
    if i > 0 {
      PairOfLow(x / 4, i - 1, n - 1);
      assert Low(x, n) / 4 == Low(x / 4, n - 1);
    }
  }

  /** r is the integer square root of y. */
  ghost predicate IsRoot(y: nat, r: nat) {
    r * r <= y < (r + 1) * (r + 1)
  }

  /** r^2 * scale <= y < (r + 1)^2 * scale. */
  ghost predicate RootAtScale(y: nat, r: nat, scale: nat) {
    r * r * scale <= y < (r + 1) * (r + 1) * scale
  }

  /** root >> k. */
  function ShiftBits(root: nat, k: nat): nat {
    if k == 0 then root else ShiftBits(root / 2, k - 1)
  }

  lemma {:induction false} ShiftBitsBounds(root: nat, k: nat)
    ensures ShiftBits(root, k) * Pow2(k) <= root < (ShiftBits(root, k) + 1) * Pow2(k)
  {
    if k > 0 {
      ShiftBitsBounds(root / 2, k - 1);
      Double(ShiftBits(root, k), Pow2(k - 1));
      Double(ShiftBits(root, k) + 1, Pow2(k - 1));
    }
  }

  lemma Double(a: nat, b: nat)
    ensures a * (2 * b) == 2 * (a * b)
  {
  }

  /** Dropping k bits of a root rounds it down at a coarser scale. */
  lemma ShiftedRoot(y: nat, root: nat, k: nat)
    requires IsRoot(y, root)
    ensures RootAtScale(y, ShiftBits(root, k), Pow4(k))
  {
    hide IsRoot, RootAtScale, ShiftBits, Pow2, Pow4;
    ShiftBitsBounds(root, k);
    Pow4Square(k);
    ScaledRoot(y, root, ShiftBits(root, k), Pow2(k));
  }

  lemma ScaledRoot(y: nat, root: nat, r: nat, p: nat)
    requires IsRoot(y, root) && r * p <= root < (r + 1) * p
    ensures RootAtScale(y, r, p * p)
  {
    ScaledSquare(r, p, root);
    ScaledSquare(r + 1, p, root + 1);
  }

  lemma ScaledSquare(r: nat, p: nat, a: nat)
    ensures r * p <= a ==> r * r * (p * p) <= a * a
    ensures a <= r * p ==> a * a <= r * r * (p * p)
  {
    Regroup(r, p);
    if r * p <= a {
      Squares(r * p, a);
    } else {
      Squares(a, r * p);
    }
  }

  lemma Squares(a: nat, b: nat)
    requires a <= b
    ensures a * a <= b * b
  {
    assert a * a <= a * b <= b * b;
  }

  lemma Regroup(r: nat, p: nat)
    ensures (r * p) * (r * p) == r * r * (p * p)
  {
  }

  /** One digit: the remainder stays below twice the root. */
  lemma Digit(root: nat, rem: nat, y: nat, d: nat)
    requires root * root + rem == y && rem <= 2 * root && d < 4
    ensures var rem' := 4 * rem + d; var trial := 4 * root + 1;
            if rem' >= trial then
              (2 * root + 1) * (2 * root + 1) + (rem' - trial) == 4 * y + d && rem' - trial <= 2 * (2 * root + 1)
            else (2 * root) * (2 * root) + rem' == 4 * y + d && rem' <= 2 * (2 * root)
  {
    assert (2 * root + 1) * (2 * root + 1) == 4 * (root * root) + 4 * root + 1;
    assert (2 * root) * (2 * root) == 4 * (root * root);
  }

  /** The square root of the low 64 bits of x, a bit pair at a time. */
  method Root(x: nat) returns (root: nat)
    ensures IsRoot(Low(x, 32), root)
  {
    ghost var y := Low(x, 32);
    var rem: nat := 0;
    root := 0;
    var i := 32;
    PairOfLow(x, 32, 32);
    hide Low, Shift;
    while i > 0
      invariant 0 <= i <= 32
      invariant root * root + rem == Shift(y, i)
      invariant rem <= 2 * root
    {
      i := i - 1;
      PairOfLow(x, i, 32);
      ShiftNext(y, i);
      root, rem := NextDigit(root, rem, Shift(x, i) % 4, Shift(y, i + 1));
    }
    ShiftZero(y);
    NextSquare(root);
  }

  lemma ShiftZero(x: nat)
    ensures Shift(x, 0) == x
  {
  }

  lemma NextSquare(root: nat)
    ensures (root + 1) * (root + 1) == root * root + 2 * root + 1
  {
  }

  /** Brings down two bits and subtracts the trial square when it fits. */
  method NextDigit(root: nat, rem: nat, pair: nat, ghost y: nat) returns (root': nat, rem': nat)
    requires root * root + rem == y && rem <= 2 * root && pair < 4
    ensures root' * root' + rem' == 4 * y + pair && rem' <= 2 * root'
    ensures root' == 2 * root || root' == 2 * root + 1
  {
    Digit(root, rem, y, pair);
    rem' := 4 * rem + pair;
    var trial := 4 * root + 1;
    if rem' >= trial {
      return 2 * root + 1, rem' - trial;
    }
    return 2 * root, rem';
  }

  lemma {:induction false} Pow4IsPow2(k: nat)
    ensures Pow4(k) == Pow2(2 * k)
  {
    if k > 0 {
      Pow4IsPow2(k - 1);
      assert Pow2(2 * k) == 2 * Pow2(2 * k - 1) == 4 * Pow2(2 * k - 2);
    }
  }

  /** The bounds determine the result. */
  lemma RootUnique(y: nat, r: nat, s: nat, scale: nat)
    requires RootAtScale(y, r, scale) && RootAtScale(y, s, scale)
    ensures r == s
  {
    RootOrder(y, r, s, scale);
    RootOrder(y, s, r, scale);
  }

  lemma RootOrder(y: nat, r: nat, s: nat, scale: nat)
    requires r * r * scale <= y < (s + 1) * (s + 1) * scale
    ensures r <= s
  {
    if s + 1 <= r {
      Squares(s + 1, r);
      Scale((s + 1) * (s + 1), r * r, scale);
    }
  }

  lemma {:induction false} Pow4Add(i: nat, j: nat)
    ensures Pow4(i + j) == Pow4(i) * Pow4(j)
  {
    if i > 0 {
      Pow4Add(i - 1, j);
      Regroup4(Pow4(j), Pow4(i - 1));
    }
  }

  /** A root of y < q^2 * scale stays below q, so its upper bound does not pass q^2 * scale. */
  lemma RootBelow(y: nat, r: nat, q: nat, scale: nat)
    requires RootAtScale(y, r, scale) && y < q * q * scale && q >= 1
    ensures (r + 1) * (r + 1) * scale <= q * q * scale
  {
    RootOrder(y, r, q - 1, scale);
    Squares(r + 1, q);
    Scale((r + 1) * (r + 1), q * q, scale);
  }

  lemma ZeroRoot(y: nat, r: nat, x: nat, scale: nat)
    requires RootAtScale(y, r, scale) && y < scale
    ensures RootAtScale(x, r, scale) <==> x < scale
  {
    RootOrder(y, r, 0, scale);
  }

  /** 64, or the number of fraction bits if that is more. */
  function InputBits(fracBits: nat): nat {
    if fracBits <= 64 then 64 else fracBits
  }

  /** The promised bounds r^2 * 2^f <= x < (r + 1)^2 * 2^f hold, for every even f, exactly
      when x is below 2^64 or 2^f, whichever is more. */
  lemma RootBounds(x: nat, f: nat)
    requires f % 2 == 0
    ensures forall r: nat :: RootAtScale(x % Pow4(32), r, Pow4(f / 2)) ==>
              (RootAtScale(x, r, Pow2(f)) <==> x < Pow2(InputBits(f)))
  {
    hide Pow2, Pow4, RootAtScale;
    var k := f / 2;
    Pow4IsPow2(32);
    Pow4IsPow2(k);
    forall r: nat | RootAtScale(x % Pow4(32), r, Pow4(k))
      ensures RootAtScale(x, r, Pow2(f)) <==> x < Pow2(InputBits(f))
    {
      if f > 64 {
        // The root of the low 64 bits is 0.
        Pow2Monotone(64, f);
        ZeroRoot(x % Pow4(32), r, x, Pow4(k));
      } else if x < Pow2(64) {
        DivUnique(x, Pow4(32), 0, x);
      } else {
        Pow4Square(32 - k);
        Pow4Add(32 - k, k);
        assert Pow4(32) == Pow4(32 - k) * Pow4(k);
        RootBelow(x % Pow4(32), r, Pow2(32 - k), Pow4(k));
        TooLarge(x, r, Pow4(k));
      }
    }
  }

  lemma TooLarge(x: nat, r: nat, scale: nat)
    requires (r + 1) * (r + 1) * scale <= x
    ensures !RootAtScale(x, r, scale)
  {
  }

  /** Of a positive x, the square root of its low 64 bits at scale 2^(fracBits / 2). */
  method FpSqrt(x: int, fracBits: nat) returns (r: nat)
    ensures x <= 0 ==> r == 0
    ensures x > 0 ==> RootAtScale(x % Pow4(32), r, Pow4(fracBits / 2))
    ensures x > 0 && fracBits % 2 == 0 ==> (RootAtScale(x, r, Pow2(fracBits)) <==> x < Pow2(InputBits(fracBits)))
  {
    if x <= 0 {
      return 0;
    }
    var root := Root(x);
    hide *;
    ShiftLow(x, 32);
    ShiftedRoot(Low(x, 32), root, fracBits / 2);
    r := ShiftBits(root, fracBits / 2);
    if fracBits % 2 == 0 {
      RootBounds(x, fracBits);
    }
  }
}
