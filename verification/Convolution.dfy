/** Column sums of a product of bigit sequences, the reference for squaring. */
module Convolution {
  import opened Words
  import opened Bigits

  /** The bigit at index k of b, zero outside. */
  function At(b: seq<U32>, k: int): U32 {
    if 0 <= k < |b| then b[k] else 0
  }

  function Term(x: U32, y: U32): (r: U64)
    ensures r == x * y <= 0xffff_fffe_0000_0001
  {
    WordProduct(x, y);
    x * y
  }

  /** The sum of a[i] * b[k - i] over all i. */
  function Column(a: seq<U32>, b: seq<U32>, k: int): nat {
    if a == [] then 0 else Term(a[0], At(b, k)) + Column(a[1..], b, k - 1)
  }

  /** The columns below k, each with its weight. */
  function Columns(a: seq<U32>, b: seq<U32>, k: nat): nat {
    if k == 0 then 0 else Columns(a, b, k - 1) + P(k - 1) * Column(a, b, k - 1)
  }

  lemma {:induction false} ColumnBelowZero(a: seq<U32>, b: seq<U32>, k: int)
    requires k < 0
    ensures Column(a, b, k) == 0
  {
    if a == [] {
    } else {
      ColumnBelowZero(a[1..], b, k - 1);
    }
  }

  /** Leading terms whose partner index lies beyond b contribute nothing. */
  lemma {:induction false} ColumnSkip(a: seq<U32>, b: seq<U32>, k: int, i: nat)
    requires i <= |a| && (i > 0 ==> k - (i - 1) >= |b|)
    ensures Column(a, b, k) == Column(a[i..], b, k - i)
    decreases i
  {
    if i == 0 {
    } else {
      assert a[1..][i - 1..] == a[i..];
      ColumnSkip(a[1..], b, k - 1, i - 1);
    }
  }

  lemma ColumnStep(a: seq<U32>, b: seq<U32>, k: int, i: nat)
    requires i < |a|
    ensures Column(a[i..], b, k) == Term(a[i], At(b, k)) + Column(a[i + 1..], b, k - 1)
  {
    assert a[i..][1..] == a[i + 1..];
  }

  lemma {:induction false} ColumnsOfTail(a: seq<U32>, b: seq<U32>, k: nat)
    requires a != [] && k > 0
    ensures Columns(a, b, k) == a[0] * Low(b, 0, k) + 0x1_0000_0000 * Columns(a[1..], b, k - 1)
  {
    var x, tail, p := a[0], a[1..], P(k - 1);
    assert At(b, k - 1) == Digit(b, 0, k - 1);
    if k == 1 {
      ColumnBelowZero(tail, b, -1);
      assert Low(b, 0, 1) == Digit(b, 0, 0) by { assert Low(b, 0, 0) == 0; }
      assert Columns(a, b, 0) == 0;
    } else {
      ColumnsOfTail(a, b, k - 1);
      SpreadColumn(x, Low(b, 0, k - 1), p, Digit(b, 0, k - 1), P(k - 2), Column(tail, b, k - 2));
    }
  }

  lemma SpreadColumn(x: int, low: int, p: int, d: int, p2: int, c: int)
    requires p == 0x1_0000_0000 * p2
    ensures p * (x * d + c) == x * (low + p * d) - x * low + 0x1_0000_0000 * (p2 * c)
  {
    assert p * (x * d + c) == x * (p * d) + p * c;
    Scale(0x1_0000_0000, p2, c);
  }

  /** All the columns together are the product. */
  lemma {:induction false} ColumnsAreProduct(a: seq<U32>, b: seq<U32>, k: nat)
    requires k >= |a| + |b|
    ensures Columns(a, b, k) == Val(a) * Val(b)
    decreases |a|
  {
    if a == [] {
      NoColumns(b, k);
    } else {
      ColumnsOfTail(a, b, k);
      ColumnsAreProduct(a[1..], b, k - 1);
      LowIsValue(b, 0, k);
      SumOfProducts(a[0], Val(a[1..]), Val(b));
    }
  }

  lemma SumOfProducts(x: int, y: int, z: int)
    ensures x * z + 0x1_0000_0000 * (y * z) == (x + 0x1_0000_0000 * y) * z
  {}

  lemma {:induction false} NoColumns(b: seq<U32>, k: nat)
    ensures Columns([], b, k) == 0
  {
    if k == 0 {
    } else {
      NoColumns(b, k - 1);
    }
  }

  /** A square of n bigits has at most 2n bigits. */
  lemma SquareBound(s: seq<U32>)
    ensures Val(s) * Val(s) < P(2 * |s|)
  {
    ValBound(s);
    PAdd(|s|, |s|);
    SquareLess(Val(s), P(|s|));
  }

  lemma SquareLess(v: nat, p: nat)
    requires v < p
    ensures v * v < p * p
  {
    MulMonotone(v, p, v);
    MulMonotone(v + 1, p, p);
  }
}
