/** Shortest numbers in the rounding interval of a fraction, in integers: m stands for m / d against n / d, and the
    interval reaches l / d down and u / d up. */
module RoundingInterval {
  import opened Words

  // ---- One place ----

  /** m is in the interval, whose ends belong to it when it is closed. */
  predicate In(n: int, d: nat, l: nat, u: nat, closed: bool, m: int) {
    if closed then n - l <= m * d <= n + u else n - l < m * d < n + u
  }

  ghost predicate NoneIn(n: int, d: nat, l: nat, u: nat, closed: bool) {
    forall m: int :: !In(n, d, l, u, closed, m)
  }

  /** v is nearer to n / d than m, or as near and even. */
  predicate Nearer(n: int, d: nat, v: int, m: int) {
    Abs(n - v * d) < Abs(n - m * d) || (Abs(n - v * d) == Abs(n - m * d) && v % 2 == 0)
  }

  ghost predicate Best(n: int, d: nat, l: nat, u: nat, closed: bool, v: int) {
    In(n, d, l, u, closed, v) && forall m: int :: In(n, d, l, u, closed, m) && m != v ==> Nearer(n, d, v, m)
  }

  /** No number strictly inside is nearer than v. */
  ghost predicate NoneNearer(n: int, d: nat, l: nat, u: nat, v: int) {
    forall m: int :: In(n, d, l, u, false, m) ==> Abs(n - v * d) <= Abs(n - m * d)
  }

  /** There is only one best number. */
  lemma BestIsUnique(n: int, d: nat, l: nat, u: nat, closed: bool, v: int, w: int)
    requires d > 0 && l > 0 && u > 0 && Best(n, d, l, u, closed, v) && Best(n, d, l, u, closed, w)
    ensures v == w
  {
    if v != w {
      EquallyNear(n, d, v, w);
      var m := (v + w) / 2;
      MiddleIsExact(n, d, v, w, m);
      assert In(n, d, l, u, closed, m);
      ExactIsNearest(n, d, v, m);
    }
  }

  lemma EquallyNear(n: int, d: nat, v: int, w: int)
    requires Nearer(n, d, v, w) && Nearer(n, d, w, v)
    ensures Abs(n - v * d) == Abs(n - w * d) && v % 2 == 0 && w % 2 == 0
  {}

  lemma ExactIsNearest(n: int, d: nat, v: int, m: int)
    requires d > 0 && m * d == n && m != v
    ensures !Nearer(n, d, v, m)
  {
    DistinctProducts(d, v, m);
  }

  lemma MiddleIsExact(n: int, d: nat, v: int, w: int, m: int)
    requires d > 0 && v != w && v + w == 2 * m && Abs(n - v * d) == Abs(n - w * d)
    ensures m * d == n && m != v
  {
    DistinctProducts(d, v, w);
    assert (v + w) * d == v * d + w * d;
    assert 2 * m * d == 2 * (m * d);
  }

  lemma DistinctProducts(d: nat, v: int, w: int)
    requires d > 0
    ensures v != w ==> v * d != w * d
  {
    if v < w { MulStrict(v, w, d); } else if w < v { MulStrict(w, v, d); }
  }

  // ---- The decision after one digit ----

  /** The flags of one turn, on the remainder r and the scaled ends l and u. The test of the lower end sees equality
      only when held: when the two numbers are stored with the same exponent. */
  ghost predicate LowFlag(r: nat, l: nat, even: bool, held: bool, low: bool) {
    low == (r < l || (even && held && r == l))
  }

  ghost predicate HighFlag(r: nat, u: nat, d: nat, even: bool, high: bool) {
    high == (r + u > d || (even && r + u == d))
  }

  ghost predicate UpFlag(r: nat, d: nat, q: int, low: bool, high: bool, up: bool) {
    up == (!low || (high && (2 * r > d || (2 * r == d && q % 2 != 0))))
  }

  /** With the lower end held, the digit chosen is the best number of its length. */
  lemma ChosenIsBest(n: nat, d: nat, l: nat, u: nat, q: int, r: nat, even: bool, low: bool, high: bool, up: bool)
    requires n == q * d + r && r < d && l > 0 && u > 0
    requires LowFlag(r, l, even, true, low) && HighFlag(r, u, d, even, high) && (low || high)
    requires UpFlag(r, d, q, low, high, up)
    ensures Best(n, d, l, u, even, if up then q + 1 else q)
  {
    var v := if up then q + 1 else q;
    assert (q + 1) * d == q * d + d;
    forall m: int | In(n, d, l, u, even, m) && m != v
      ensures Nearer(n, d, v, m)
    {
      Places(q, m, d);
    }
  }

  /** Numbers other than q and q + 1 are at least one place further away. */
  lemma Places(q: int, m: int, d: nat)
    ensures m < q ==> m * d <= q * d - d
    ensures m > q + 1 ==> m * d >= q * d + 2 * d
  {
    if m < q { MulMonotone(m, q - 1, d); assert (q - 1) * d == q * d - d; }
    if m > q + 1 { MulMonotone(q + 2, m, d); assert (q + 2) * d == q * d + 2 * d; }
  }

  /** When neither end was reached, no number of this length is in the interval. */
  lemma PassedHasNone(n: nat, d: nat, l: nat, u: nat, q: int, r: nat, even: bool)
    requires n == q * d + r && r < d
    requires LowFlag(r, l, even, true, false) && HighFlag(r, u, d, even, false)
    ensures NoneIn(n, d, l, u, even)
  {
    assert (q + 1) * d == q * d + d;
    forall m: int
      ensures !In(n, d, l, u, even, m)
    {
      Places(q, m, d);
    }
  }

  /** What holds of every choice, also when the lower end is not held. */
  lemma ChosenIsInside(n: nat, d: nat, l: nat, u: nat, q: int, r: nat, even: bool, held: bool,
                       low: bool, high: bool, up: bool)
    requires n == q * d + r && r < d && l > 0 && u > 0
    requires LowFlag(r, l, even, held, low) && HighFlag(r, u, d, even, high) && (low || high)
    requires UpFlag(r, d, q, low, high, up)
    ensures var v := if up then q + 1 else q; In(n, d, l, u, even, v) && NoneNearer(n, d, l, u, v)
  {
    var v := if up then q + 1 else q;
    assert (q + 1) * d == q * d + d;
    forall m: int | In(n, d, l, u, false, m)
      ensures Abs(n - v * d) <= Abs(n - m * d)
    {
      Places(q, m, d);
    }
  }

  lemma PassedHasNoneInside(n: nat, d: nat, l: nat, u: nat, q: int, r: nat, even: bool, held: bool)
    requires n == q * d + r && r < d
    requires LowFlag(r, l, even, held, false) && HighFlag(r, u, d, even, false)
    ensures NoneIn(n, d, l, u, false)
  {
    assert (q + 1) * d == q * d + d;
    forall m: int
      ensures !In(n, d, l, u, false, m)
    {
      Places(q, m, d);
    }
  }

  // ---- All places ----

  ghost predicate NoneAt(n0: nat, d: nat, l0: nat, u0: nat, closed: bool, k: nat) {
    NoneIn(n0 * Pow(10, k), d, l0 * Pow(10, k), u0 * Pow(10, k), closed)
  }

  ghost predicate BestAt(n0: nat, d: nat, l0: nat, u0: nat, closed: bool, k: nat, v: int) {
    Best(n0 * Pow(10, k), d, l0 * Pow(10, k), u0 * Pow(10, k), closed, v)
  }

  /** What the shortest loop always leaves: a number in the interval (its ends count when the significand is even); no
      number of that length strictly inside is nearer; and none with fewer digits is strictly inside. */
  ghost predicate Shortest(n0: nat, d: nat, l0: nat, u0: nat, even: bool, length: nat, v: int) {
    && length > 0
    && (var p := Pow(10, length - 1);
        In(n0 * p, d, l0 * p, u0 * p, even, v) && NoneNearer(n0 * p, d, l0 * p, u0 * p, v))
    && (length > 1 ==> NoneAt(n0, d, l0, u0, false, length - 2))
  }

  /** What is wanted: no shorter number in the interval, and of those with this length the nearest, even on a tie. */
  ghost predicate Exact(n0: nat, d: nat, l0: nat, u0: nat, even: bool, length: nat, v: int) {
    && length > 0 && BestAt(n0, d, l0, u0, even, length - 1, v)
    && (length > 1 ==> NoneAt(n0, d, l0, u0, even, length - 2))
  }

  lemma {:induction false} NoneBefore(n0: nat, d: nat, l0: nat, u0: nat, closed: bool, j: nat, k: nat)
    requires j <= k && NoneAt(n0, d, l0, u0, closed, k)
    ensures NoneAt(n0, d, l0, u0, closed, j)
    decreases k - j
  {
    if j == k {
    } else {
      NoneBefore(n0, d, l0, u0, closed, j + 1, k);
      var p := Pow(10, j);
      forall m: int
        ensures !In(n0 * p, d, l0 * p, u0 * p, closed, m)
      {
        TenfoldBound(n0, j); TenfoldBound(l0, j); TenfoldBound(u0, j);
        InTenfold(n0 * p, d, l0 * p, u0 * p, closed, m);
      }
    }
  }

  lemma TenfoldBound(x: nat, k: nat)
    ensures 10 * (x * Pow(10, k)) == x * Pow(10, k + 1)
  {}

  lemma InTenfold(n: nat, d: nat, l: nat, u: nat, closed: bool, m: int)
    ensures In(n, d, l, u, closed, m) <==> In(10 * n, d, 10 * l, 10 * u, closed, 10 * m)
  {
    assert 10 * m * d == 10 * (m * d);
  }

  lemma ScaledPositive(x: nat, k: nat)
    requires x > 0
    ensures x * Pow(10, k) > 0
  {
    PowPositive(10, k);
    ProductPositive(x, Pow(10, k));
  }

  /** There is only one such number. */
  lemma ExactIsUnique(n0: nat, d: nat, l0: nat, u0: nat, even: bool, length: nat, v: int, length': nat, v': int)
    requires d > 0 && l0 > 0 && u0 > 0
    requires Exact(n0, d, l0, u0, even, length, v) && Exact(n0, d, l0, u0, even, length', v')
    ensures length == length' && v == v'
  {
    NotShorter(n0, d, l0, u0, even, length, v, length', v');
    NotShorter(n0, d, l0, u0, even, length', v', length, v);
    var k := length - 1;
    ScaledPositive(l0, k); ScaledPositive(u0, k);
    BestIsUnique(n0 * Pow(10, k), d, l0 * Pow(10, k), u0 * Pow(10, k), even, v, v');
  }

  lemma NotShorter(n0: nat, d: nat, l0: nat, u0: nat, even: bool, length: nat, v: int, length': nat, v': int)
    requires Exact(n0, d, l0, u0, even, length, v) && Exact(n0, d, l0, u0, even, length', v')
    ensures length' <= length
  {
    if length < length' {
      NoneBefore(n0, d, l0, u0, even, length - 1, length' - 2);
    }
  }

  // ---- When the search misses the lower end ----

  /** v is the number wanted, and is the lower end of the interval itself. */
  ghost predicate EndIsExact(n0: nat, d: nat, l0: nat, u0: nat, length: nat, v: int) {
    && Exact(n0, d, l0, u0, true, length, v)
    && v * d == n0 * Pow(10, length - 1) - l0 * Pow(10, length - 1)
  }

  /** The search passes over the number wanted: it is the closed lower end, and that end is not held. */
  ghost predicate Misses(n0: nat, d: nat, l0: nat, u0: nat, even: bool, held: bool) {
    even && !held && exists length: nat, v: int :: EndIsExact(n0, d, l0, u0, length, v)
  }

  /** A number that is wanted unless something was missed, and that is not the end when the end is not held, is wanted
      exactly when nothing is missed. */
  lemma WantedUnlessMissed(n0: nat, d: nat, l0: nat, u0: nat, even: bool, held: bool, length: nat, v: int)
    requires d > 0 && l0 > 0 && u0 > 0 && length > 0
    requires Exact(n0, d, l0, u0, even, length, v) || Misses(n0, d, l0, u0, even, held)
    requires even && !held ==> v * d != n0 * Pow(10, length - 1) - l0 * Pow(10, length - 1)
    ensures Exact(n0, d, l0, u0, even, length, v) <==> !Misses(n0, d, l0, u0, even, held)
  {
    if Misses(n0, d, l0, u0, even, held) && Exact(n0, d, l0, u0, even, length, v) {
      var length': nat, v': int :| EndIsExact(n0, d, l0, u0, length', v');
      ExactIsUnique(n0, d, l0, u0, even, length, v, length', v');
    }
  }

  // ---- One turn of the search ----

  /** Before digit k: no shorter number was strictly inside, and none was in the interval unless it was missed. */
  ghost predicate NoneSoFar(n0: nat, d: nat, l0: nat, u0: nat, even: bool, held: bool, k: nat) {
    && (k > 0 ==> NoneAt(n0, d, l0, u0, false, k - 1))
    && ((k > 0 ==> NoneAt(n0, d, l0, u0, even, k - 1)) || Misses(n0, d, l0, u0, even, held))
  }

  lemma TurnPasses(n0: nat, d: nat, l0: nat, u0: nat, even: bool, held: bool, k: nat, q: int, r: nat)
    requires n0 * Pow(10, k) == q * d + r && r < d && l0 > 0 && u0 > 0
    requires LowFlag(r, l0 * Pow(10, k), even, held, false) && HighFlag(r, u0 * Pow(10, k), d, even, false)
    requires NoneSoFar(n0, d, l0, u0, even, held, k)
    ensures NoneSoFar(n0, d, l0, u0, even, held, k + 1)
  {
    var n, l, u := n0 * Pow(10, k), l0 * Pow(10, k), u0 * Pow(10, k);
    PassedHasNoneInside(n, d, l, u, q, r, even, held);
    if even && !held && r == l {
      ScaledPositive(l0, k); ScaledPositive(u0, k);
      ChosenIsBest(n, d, l, u, q, r, even, true, false, false);
      EndWanted(n0, d, l0, u0, held, k, q);
    } else {
      PassedHasNone(n, d, l, u, q, r, even);
    }
  }

  lemma EndWanted(n0: nat, d: nat, l0: nat, u0: nat, held: bool, k: nat, q: int)
    requires BestAt(n0, d, l0, u0, true, k, q) && !held && q * d == n0 * Pow(10, k) - l0 * Pow(10, k)
    requires NoneSoFar(n0, d, l0, u0, true, held, k)
    ensures Misses(n0, d, l0, u0, true, held)
  {
    if k == 0 || NoneAt(n0, d, l0, u0, true, k - 1) {
      assert EndIsExact(n0, d, l0, u0, k + 1, q);
    }
  }

  lemma TurnEnds(n0: nat, d: nat, l0: nat, u0: nat, even: bool, held: bool, k: nat, q: int, r: nat,
                 low: bool, high: bool, up: bool)
    requires n0 * Pow(10, k) == q * d + r && r < d && l0 > 0 && u0 > 0
    requires LowFlag(r, l0 * Pow(10, k), even, held, low) && HighFlag(r, u0 * Pow(10, k), d, even, high)
    requires (low || high) && UpFlag(r, d, q, low, high, up)
    requires NoneSoFar(n0, d, l0, u0, even, held, k)
    ensures var v := if up then q + 1 else q;
            && Shortest(n0, d, l0, u0, even, k + 1, v)
            && (Exact(n0, d, l0, u0, even, k + 1, v) <==> !Misses(n0, d, l0, u0, even, held))
  {
    var n, l, u, v := n0 * Pow(10, k), l0 * Pow(10, k), u0 * Pow(10, k), if up then q + 1 else q;
    ScaledPositive(l0, k); ScaledPositive(u0, k);
    ChosenIsInside(n, d, l, u, q, r, even, held, low, high, up);
    if even && !held && r == l {
      MissedAtEnd(n0, d, l0, u0, held, k, q, r);
    } else {
      ChosenIsBest(n, d, l, u, q, r, even, low, high, up);
    }
    assert (q + 1) * d == q * d + d;
    WantedUnlessMissed(n0, d, l0, u0, even, held, k + 1, v);
  }

  /** The remainder equals the lower end, unseen, and the upper end was reached: the digit is rounded up. */
  lemma MissedAtEnd(n0: nat, d: nat, l0: nat, u0: nat, held: bool, k: nat, q: int, r: nat)
    requires n0 * Pow(10, k) == q * d + r && r < d && l0 > 0 && u0 > 0
    requires r == l0 * Pow(10, k) && HighFlag(r, u0 * Pow(10, k), d, true, true) && !held
    requires NoneSoFar(n0, d, l0, u0, true, held, k)
    ensures Exact(n0, d, l0, u0, true, k + 1, q + 1) || Misses(n0, d, l0, u0, true, held)
  {
    var up := 2 * r > d || (2 * r == d && q % 2 != 0);
    ScaledPositive(l0, k); ScaledPositive(u0, k);
    ChosenIsBest(n0 * Pow(10, k), d, r, u0 * Pow(10, k), q, r, true, true, true, up);
    if !up {
      EndWanted(n0, d, l0, u0, held, k, q);
    }
  }

  // ---- When the first digit overflows ----

  /** The upper end does not reach the next power of ten. */
  predicate Fits(n: nat, u: nat, d: nat, even: bool) {
    n + u < 10 * d || (!even && n + u == 10 * d)
  }

  /** A first digit 9 is rounded up. */
  predicate Overflow(n: nat, d: nat, l: nat, u: nat, even: bool, held: bool) {
    && n >= 9 * d && !Fits(n, u, d, even)
    && (n - 9 * d > l || (n - 9 * d == l && !(even && held)) || 2 * (n - 9 * d) >= d)
  }
}
