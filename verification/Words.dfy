/** Machine words of the modelled C++ code, and powers. */
module Words {
  type U32 = x: int | 0 <= x < 0x1_0000_0000
  type U64 = x: int | 0 <= x < 0x1_0000_0000_0000_0000

  function Min(x: nat, y: nat): nat { if x <= y then x else y }
  function Max(x: nat, y: nat): nat { if x <= y then y else x }

  function Abs(x: int): nat { if x < 0 then -x else x }
  function AbsR(x: real): real { if x < 0.0 then -x else x }

  function Pow(b: nat, n: nat): nat {
    if n == 0 then 1 else b * Pow(b, n - 1)
  }

  lemma {:induction false} PowPositive(b: nat, n: nat)
    requires b > 0
    ensures Pow(b, n) > 0
  {
    if n == 0 {
    } else {
      PowPositive(b, n - 1);
      ProductPositive(b, Pow(b, n - 1));
    }
  }

  lemma ProductPositive(x: nat, y: nat)
    requires x > 0 && y > 0
    ensures x * y > 0
  {}

  lemma {:induction false} PowAdd(b: nat, m: nat, n: nat)
    ensures Pow(b, m + n) == Pow(b, m) * Pow(b, n)
  {
    if m == 0 {
    } else {
      PowAdd(b, m - 1, n);
      assert Pow(b, m + n) == b * Pow(b, m - 1 + n);
      Scale(b, Pow(b, m - 1), Pow(b, n));
    }
  }

  lemma Scale(b: int, x: int, y: int)
    ensures b * (x * y) == b * x * y
  {}

  lemma {:induction false} PowProduct(a: nat, b: nat, n: nat)
    ensures Pow(a * b, n) == Pow(a, n) * Pow(b, n)
  {
    if n == 0 {
    } else {
      PowProduct(a, b, n - 1);
      Regroup(a, b, Pow(a, n - 1), Pow(b, n - 1));
    }
  }

  lemma Regroup(a: int, b: int, p: int, q: int)
    ensures (a * b) * (p * q) == (a * p) * (b * q)
  {
    assert (a * b) * (p * q) == a * (b * (p * q));
    assert b * (p * q) == p * (b * q);
    assert a * (p * (b * q)) == (a * p) * (b * q);
  }

  // ---- Products, quotients and remainders of variables ----

  lemma MulMonotone(a: int, b: int, c: nat)
    requires a <= b
    ensures a * c <= b * c
  {
    assert (b - a) * c >= 0;
  }

  lemma MulStrict(a: int, b: int, c: nat)
    requires a < b && c > 0
    ensures c * a < c * b
  {
    assert c * (b - a) >= c by { MulMonotone(1, b - a, c); }
  }

  /** Two numbers below w that differ by a multiple of w are equal. */
  lemma SameResidue(a: nat, b: nat, w: nat, k: int)
    requires a < w && b < w && a == b + w * k
    ensures a == b && k == 0
  {
    if k >= 1 {
      MulMonotone(1, k, w);
    } else if k <= -1 {
      MulMonotone(k, -1, w);
    }
  }

  /** Division with remainder is unique. */
  lemma DivUnique(n: nat, d: nat, q: int, r: nat)
    requires r < d && n == d * q + r
    ensures n / d == q && n % d == r
  {
    var k := n / d - q;
    assert r == n % d + d * k;
    SameResidue(r, n % d, d, k);
  }

  lemma DivMonotone(a: nat, b: nat, d: nat)
    requires a <= b && 0 < d
    ensures a / d <= b / d
  {
    if a / d > b / d {
      MulMonotone(b / d + 1, a / d, d);
    }
  }

  lemma WordProduct(x: U32, y: U32)
    ensures 0 <= x * y <= 0xffff_fffe_0000_0001
  {
    MulMonotone(x, 0xffff_ffff, y);
  }

  // ---- 128-bit sums in two words ----

  /** The wrapped low word is smaller than the addend exactly when the addition carried. */
  lemma WrappedSum(lower: U64, upper: U64, n: U64)
    ensures var sum := (lower + n) % 0x1_0000_0000_0000_0000;
            var high := if sum < n then (upper + 1) % 0x1_0000_0000_0000_0000 else upper;
            high * 0x1_0000_0000_0000_0000 + sum
            == (upper * 0x1_0000_0000_0000_0000 + lower + n) % 0x1_0000_0000_0000_0000_0000_0000_0000_0000
  {
    if lower + n < 0x1_0000_0000_0000_0000 {
      assert (lower + n) % 0x1_0000_0000_0000_0000 == lower + n;
    } else {
      assert (lower + n) % 0x1_0000_0000_0000_0000 == lower + n - 0x1_0000_0000_0000_0000;
    }
  }
}
