/** Powers with integer exponents as real numbers, and comparisons scaled by them. */
module RealScale {
  import opened Words

  /** The bases in use: binary and decimal. */
  predicate Base(b: nat) { b == 2 || b == 10 }

  function Times(b: nat, x: real): real
    requires Base(b)
  {
    if b == 2 then 2.0 * x else 10.0 * x
  }

  function Over(b: nat, x: real): real
    requires Base(b)
  {
    if b == 2 then x / 2.0 else x / 10.0
  }

  /** b^k for any integer k. */
  function PowR(b: nat, k: int): real
    requires Base(b)
    decreases if k < 0 then -k else k
  {
    if k == 0 then 1.0 else if k > 0 then Times(b, PowR(b, k - 1)) else Over(b, PowR(b, k + 1))
  }

  lemma {:induction false} PowRPositive(b: nat, k: int)
    requires Base(b)
    ensures PowR(b, k) > 0.0
    decreases if k < 0 then -k else k
  {
    if k == 0 {
    } else if k > 0 {
      PowRPositive(b, k - 1);
    } else {
      PowRPositive(b, k + 1);
    }
  }

  lemma PowRStep(b: nat, k: int)
    requires Base(b)
    ensures PowR(b, k + 1) == Times(b, PowR(b, k))
  {}

  lemma {:induction false} PowRIsPow(b: nat, k: nat)
    requires Base(b)
    ensures PowR(b, k) == Pow(b, k) as real
  {
    if k == 0 {
    } else {
      PowRIsPow(b, k - 1);
    }
  }

  lemma {:induction false} PowRShift(b: nat, k: int, j: nat)
    requires Base(b)
    ensures PowR(b, k + j) == Units(Pow(b, j), PowR(b, k))
  {
    if j == 0 {
      assert Pow(b, 0) == 1;
    } else {
      PowRShift(b, k, j - 1);
      ShiftOnce(b, k + (j - 1), k + j, PowR(b, k), Pow(b, j - 1), Pow(b, j));
    }
  }

  lemma ShiftOnce(b: nat, k: int, next: int, x: real, p: nat, q: nat)
    requires Base(b) && next == k + 1 && q == b * p && PowR(b, k) == Units(p, x)
    ensures PowR(b, next) == Units(q, x)
  {
    PowRStep(b, k);
    TimesInside(b, x, p, q);
  }

  lemma TimesInside(b: nat, x: real, p: nat, q: nat)
    requires Base(b) && q == b * p
    ensures Times(b, Units(p, x)) == Units(q, x)
  {
    assert q as real == if b == 2 then 2.0 * p as real else 10.0 * p as real;
  }

  /** A negative power undoes the positive one. */
  lemma PowRInverse(b: nat, k: int)
    requires Base(b) && k >= 0
    ensures PowR(b, -k) * Pow(b, k) as real == 1.0
  {
    PowRShift(b, -k, k);
    assert -k + k == 0;
  }

  lemma {:induction false} PowRGrows(b: nat, j: int, k: int)
    requires Base(b) && j <= k
    ensures PowR(b, j) <= PowR(b, k)
    decreases k - j
  {
    if j < k {
      PowRGrows(b, j, k - 1);
      PowRPositive(b, k - 1);
      PowRStep(b, k - 1);
    }
  }

  /** Negative powers of ten are not above those of two. */
  lemma {:induction false} PowRShrinks(k: int)
    requires k <= 0
    ensures PowR(10, k) <= PowR(2, k)
    decreases -k
  {
    if k < 0 {
      PowRShrinks(k + 1);
      PowRPositive(2, k + 1);
    }
  }

  lemma RealProduct(a: int, b: int)
    ensures (a * b) as real == a as real * b as real
  {}

  lemma ScaleLess(a: real, b: real, c: real)
    requires c > 0.0
    ensures a < b <==> a * c < b * c
    ensures a == b <==> a * c == b * c
  {
    assert (b - a) * c == b * c - a * c;
    if a < b { assert (b - a) * c > 0.0; }
    if a > b { assert (a - b) * c > 0.0; }
  }

  // ---- Multiples of a unit ----

  /** k units. */
  function Units(k: int, unit: real): real { k as real * unit }

  /** x is num / den units. */
  ghost predicate OnScale(x: real, num: int, den: int, unit: real) { Units(den, x) == Units(num, unit) }

  lemma UnitsLess(x: real, y: real, d: int)
    requires d > 0
    ensures x < y <==> Units(d, x) < Units(d, y)
    ensures x == y <==> Units(d, x) == Units(d, y)
  {
    ScaleLess(x, y, d as real);
  }

  lemma CompareUnits(a: int, b: int, unit: real)
    requires unit > 0.0
    ensures a < b <==> Units(a, unit) < Units(b, unit)
    ensures a == b <==> Units(a, unit) == Units(b, unit)
  {
    ScaleLess(a as real, b as real, unit);
  }
}
