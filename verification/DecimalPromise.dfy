/** What the decimal conversion promises, in real numbers, and the step there from integer fractions. */
module DecimalPromise {
  import opened Words
  import opened Decimals
  import opened FloatBits
  import opened RealScale
  import opened RoundingInterval

  /** f * 2^e. */
  ghost function Number(v: Decoded): real { Units(v.f, PowR(2, v.e)) }

  /** The decimal a digit string and an exponent stand for. */
  ghost function Decimal(buf: seq<char>, exp10: int): real { Units(Digits(buf), PowR(10, exp10)) }

  /** k units is a nearest multiple to x, and k is even when two are equally near. */
  ghost predicate RoundedTo(x: real, unit: real, k: int) {
    && -unit <= 2.0 * (x - Units(k, unit)) <= unit
    && (2.0 * (x - Units(k, unit)) == unit || 2.0 * (x - Units(k, unit)) == -unit ==> k % 2 == 0)
  }

  ghost predicate IsRounded(x: real, unit: real, y: real) {
    exists k: nat :: RoundedTo(x, unit, k) && y == Units(k, unit)
  }

  /** n digits from the place of 10^exp0 down, correctly rounded; a full carry moves the exponent by one. */
  ghost predicate CorrectlyRounded(x: real, n: nat, exp0: int, buf: seq<char>, exp10: int) {
    && |buf| == (if n == 0 then 1 else n) && AllDigits(buf)
    && (exp10 == exp0 - n + 1 || (n > 0 && exp10 == exp0 - n + 2))
    && IsRounded(x, PowR(10, exp0 - n + 1), Decimal(buf, exp10))
  }

  /** Half the distance to the neighbours of v, which bound what still reads back as v. */
  ghost function Below(v: Decoded): real { if v.closer then PowR(2, v.e) / 4.0 else PowR(2, v.e) / 2.0 }
  ghost function Above(v: Decoded): real { PowR(2, v.e) / 2.0 }

  ghost predicate ReadsBack(v: Decoded, y: real) { Number(v) - Below(v) < y < Number(v) + Above(v) }

  ghost predicate ReadsBackOrTies(v: Decoded, y: real) { Number(v) - Below(v) <= y <= Number(v) + Above(v) }

  /** What the bits of a float or a double stand for: (1 + fraction / 2^w) * 2^(biased - bias), without the 1 and with
      the least exponent when biased is 0. */
  lemma BitsAreNumber(biased: nat, fraction: nat, binary32: bool)
    requires fraction < if binary32 then 0x80_0000 else 0x10_0000_0000_0000
    ensures var one := if binary32 then 0x80_0000 else 0x10_0000_0000_0000;
            var bias := if binary32 then 127 else 1023;
            var v := DecodeBits(biased * one + fraction, binary32);
            && Units(one, Number(v)) == (if biased > 0 then Units(one + fraction, PowR(2, biased - bias))
                                         else Units(fraction, PowR(2, 1 - bias)))
            && (v.closer <==> fraction == 0 && biased > 1)
  {
    PowersOfWidth();
    var width, one := if binary32 then 23 else 52, if binary32 then 0x80_0000 else 0x10_0000_0000_0000;
    var u := biased * one + fraction;
    DivUnique(u, one, biased, fraction);
    var v := DecodeBits(u, binary32);
    PowRShift(2, v.e, width);
    SwapUnits(one, v.f, PowR(2, v.e));
  }

  lemma SwapUnits(a: int, b: int, unit: real)
    ensures Units(a, Units(b, unit)) == Units(b, Units(a, unit))
  {}

  /** The number one. */
  lemma OneInBits()
    ensures Number(DecodeBits(0x3f80_0000, true)) == 1.0 && Number(DecodeBits(0x3ff0_0000_0000_0000, false)) == 1.0
  {
    BitsAreNumber(127, 0, true);
    BitsAreNumber(1023, 0, false);
  }

  lemma HalfGaps(u: nat, width: nat, bias: int)
    requires u > 0 && width > 0
    ensures var v := Decode(u, width, bias);
            && Number(v) - Number(Decode(u - 1, width, bias)) == 2.0 * Below(v)
            && Number(Decode(u + 1, width, bias)) - Number(v) == 2.0 * Above(v)
  {
    Neighbours(u, width, bias);
    var v, below, above := Decode(u, width, bias), Decode(u - 1, width, bias), Decode(u + 1, width, bias);
    var unit := PowR(2, v.e);
    PowRStep(2, v.e);
    if v.closer {
      PowRStep(2, v.e - 1);
      HalvedUnits(v.f, below.f, PowR(2, v.e - 1));
    } else {
      NextUnits(below.f, unit);
    }
    if above.e == v.e {
      NextUnits(v.f, unit);
    } else {
      HalvedUnits(above.f, v.f, unit);
    }
  }

  lemma NextUnits(k: int, unit: real)
    ensures Units(k + 1, unit) == Units(k, unit) + unit
  {}

  lemma HalvedUnits(k: int, j: int, unit: real)
    requires 2 * k == j + 1
    ensures Units(k, 2.0 * unit) == Units(j, unit) + unit
  {
    NextUnits(j, unit);
    assert Units(k, 2.0 * unit) == Units(2 * k, unit);
  }

  /** What reads back as a number is exactly what is nearer to it than to both its neighbours; the ends are as near. */
  lemma ReadsBackIsNearest(u: nat, width: nat, bias: int, y: real)
    requires u > 0 && width > 0
    ensures var v := Decode(u, width, bias);
            ReadsBack(v, y) <==>
              && AbsR(y - Number(v)) < AbsR(y - Number(Decode(u - 1, width, bias)))
              && AbsR(y - Number(v)) < AbsR(y - Number(Decode(u + 1, width, bias)))
    ensures var v := Decode(u, width, bias);
            ReadsBackOrTies(v, y) <==>
              && AbsR(y - Number(v)) <= AbsR(y - Number(Decode(u - 1, width, bias)))
              && AbsR(y - Number(v)) <= AbsR(y - Number(Decode(u + 1, width, bias)))
  {
    var v := Decode(u, width, bias);
    HalfGaps(u, width, bias);
    PowRPositive(2, v.e);
    NearerSide(Number(v), Below(v), Above(v), y);
  }

  lemma NearerSide(x: real, below: real, above: real, y: real)
    requires below > 0.0 && above > 0.0
    ensures x - below < y < x + above <==>
            AbsR(y - x) < AbsR(y - (x - 2.0 * below)) && AbsR(y - x) < AbsR(y - (x + 2.0 * above))
    ensures x - below <= y <= x + above <==>
            AbsR(y - x) <= AbsR(y - (x - 2.0 * below)) && AbsR(y - x) <= AbsR(y - (x + 2.0 * above))
  {}

  /** No decimal with places down to 10^exp10 is strictly inside the rounding interval. */
  ghost predicate NoneReadsBack(v: Decoded, exp10: int) {
    forall m: int :: !ReadsBack(v, Units(m, PowR(10, exp10)))
  }

  /** No strictly inside decimal with places down to 10^exp10 is nearer than y. */
  ghost predicate NearestReadingBack(v: Decoded, exp10: int, y: real) {
    forall m: int :: ReadsBack(v, Units(m, PowR(10, exp10))) ==>
      AbsR(Number(v) - y) <= AbsR(Number(v) - Units(m, PowR(10, exp10)))
  }

  /** The shortest mode: inside the rounding interval (on its end only for an even significand), no strictly inside
      decimal of the same length is nearer, and none with fewer digits is strictly inside. */
  ghost predicate ShortestDecimal(v: Decoded, exp0: int, buf: seq<char>, exp10: int) {
    && buf != [] && exp10 == exp0 - |buf| + 1
    && (AllDigits(buf) || buf == [':'])
    && ReadsBackOrTies(v, Decimal(buf, exp10))
    && (v.f % 2 != 0 ==> ReadsBack(v, Decimal(buf, exp10)))
    && NearestReadingBack(v, exp10, Decimal(buf, exp10))
    && (|buf| > 1 ==> NoneReadsBack(v, exp10 + 1))
  }

  /** What a correct reader takes for v: the ends of the interval round to it when its significand is even. */
  ghost predicate ReadsAs(v: Decoded, y: real) {
    if v.f % 2 == 0 then ReadsBackOrTies(v, y) else ReadsBack(v, y)
  }

  /** q units are nearer to x than m units, or as near and even. */
  ghost predicate NearerDecimal(x: real, unit: real, q: int, m: int) {
    || AbsR(x - Units(q, unit)) < AbsR(x - Units(m, unit))
    || (AbsR(x - Units(q, unit)) == AbsR(x - Units(m, unit)) && q % 2 == 0)
  }

  ghost predicate BestDecimal(v: Decoded, place: int, q: int) {
    var unit := PowR(10, place);
    && ReadsAs(v, Units(q, unit))
    && forall m: int :: ReadsAs(v, Units(m, unit)) && m != q ==> NearerDecimal(Number(v), unit, q, m)
  }

  ghost predicate NoDecimal(v: Decoded, place: int) {
    forall m: int :: !ReadsAs(v, Units(m, PowR(10, place)))
  }

  /** The decimal wanted: nothing with fewer places from 10^exp0 down reads as v, and of what does with this many the
      nearest, even on a tie. */
  ghost predicate IsShortest(v: Decoded, exp0: int, length: nat, q: int) {
    length > 0 && BestDecimal(v, exp0 - length + 1, q) && (length > 1 ==> NoDecimal(v, exp0 - length + 2))
  }

  /** The numerator and the lower end are stored with the same exponent throughout. */
  predicate KeepsEnd(v: Decoded, exp0: int) { v.e < 0 || v.e / 32 <= exp0 / 32 }

  /** The decimal wanted is the lower end of the interval. */
  ghost predicate EndIsShortest(v: Decoded, exp0: int, length: nat, q: int) {
    IsShortest(v, exp0, length, q) && Units(q, PowR(10, exp0 - length + 1)) == Number(v) - Below(v)
  }

  ghost predicate MissesEnd(v: Decoded, exp0: int) {
    v.f % 2 == 0 && !KeepsEnd(v, exp0) && exists length: nat, q: int :: EndIsShortest(v, exp0, length, q)
  }

  /** The upper end of what reads as v is at or beyond the next power of ten. */
  ghost predicate ReachesTen(v: Decoded, exp0: int) {
    var end, ten := Number(v) + Above(v), Units(10, PowR(10, exp0));
    ten < end || (v.f % 2 == 0 && ten == end)
  }

  /** A first digit 9 that is rounded up: with ten reached above, 9 units are below what the test of the lower end lets
      in, or not nearer than 10 units. */
  ghost predicate Overflows(v: Decoded, exp0: int) {
    var unit, low := PowR(10, exp0), Number(v) - Below(v);
    && Units(9, unit) <= Number(v) && ReachesTen(v, exp0)
    && (Units(9, unit) < low || (Units(9, unit) == low && !(v.f % 2 == 0 && KeepsEnd(v, exp0)))
        || Units(19, unit) <= 2.0 * Number(v))
  }

  // ---- From the integer fraction to the real number ----

  function Positive(k: int): nat { if k > 0 then k else 0 }

  /** denominator * 2^e == lower * 2^shift * 10^exp10, with the negative powers moved to the other side. */
  ghost predicate UnitsAgree(e: int, shift: nat, exp10: int, denominator: nat, lower: nat) {
    lower * Pow(2, shift) * Pow(10, Positive(exp10)) * Pow(2, Positive(-e))
    == denominator * Pow(2, Positive(e)) * Pow(10, Positive(-exp10))
  }

  ghost predicate FractionFor(f: nat, e: int, shift: nat, exp10: int, numerator: nat, denominator: nat, lower: nat) {
    && numerator == f * Pow(2, shift) * lower
    && UnitsAgree(e, shift, exp10, denominator, lower)
  }

  lemma ScaledValue(v: Decoded, shift: nat, exp10: int, n: nat, d: nat, l: nat, u: nat)
    requires FractionFor(v.f, v.e, shift, exp10, n, d, l)
    requires shift == (if v.closer then 2 else 1) && u == (if v.closer then 2 * l else l)
    ensures OnScale(Number(v), n, d, PowR(10, exp10))
    ensures OnScale(Below(v), l, d, PowR(10, exp10))
    ensures OnScale(Above(v), u, d, PowR(10, exp10))
  {
    var t, p, s := PowR(10, exp10), PowR(2, v.e), Pow(2, shift);
    assert Pow(2, 1) == 2 && Pow(2, 2) == 4;
    PowROver(10, exp10); PowROver(2, v.e);
    UnitInReals(l, s, d, Pow(10, Positive(exp10)), Pow(10, Positive(-exp10)),
                Pow(2, Positive(v.e)), Pow(2, Positive(-v.e)), t, p);
    ValueInReals(v.f, s, l, n, d, t, p);
  }

  /** b^k times its negative part is its positive part. */
  lemma PowROver(b: nat, k: int)
    requires Base(b)
    ensures PowR(b, k) * Pow(b, Positive(-k)) as real == Pow(b, Positive(k)) as real
    ensures Pow(b, Positive(-k)) > 0
  {
    PowPositive(b, Positive(-k));
    if k >= 0 {
      PowRIsPow(b, k);
      assert Pow(b, Positive(-k)) == 1;
    } else {
      PowRInverse(b, -k);
      assert Pow(b, Positive(k)) == 1;
    }
  }

  lemma UnitInReals(l: nat, s: nat, d: nat, a: nat, a': nat, b: nat, b': nat, t: real, p: real)
    requires l * s * a * b' == d * b * a' && a' > 0 && b' > 0
    requires t * a' as real == a as real && p * b' as real == b as real
    ensures l as real * s as real * t == d as real * p
  {
    var lr, sr, dr, ar, br := l as real, s as real, d as real, a' as real, b' as real;
    RealProduct(l, s); RealProduct(l * s, a); RealProduct(l * s * a, b');
    RealProduct(d, b); RealProduct(d * b, a');
    assert lr * sr * (t * ar) * br == dr * (p * br) * ar;
    ScaleOut(lr * sr, t, ar, br); ScaleOut(dr, p, br, ar);
    assert ar * br > 0.0;
    assert ar * br == br * ar;
    ScaleLess(lr * sr * t, dr * p, ar * br);
  }

  lemma ScaleOut(x: real, t: real, a: real, b: real)
    ensures x * (t * a) * b == x * t * (a * b)
  {}

  lemma ValueInReals(f: nat, s: nat, l: nat, n: nat, d: nat, t: real, p: real)
    requires n == f * s * l && l as real * s as real * t == d as real * p
    ensures OnScale(Units(f, p), n, d, t)
    ensures s == 2 ==> OnScale(p / 2.0, l, d, t)
    ensures s == 4 ==> OnScale(p / 4.0, l, d, t) && OnScale(p / 2.0, 2 * l, d, t)
  {
    RealProduct(f, s); RealProduct(f * s, l);
    var fr, sr, lr := f as real, s as real, l as real;
    assert fr * sr * lr * t == fr * (lr * sr * t);
    assert d as real * (fr * p) == fr * (d as real * p);
  }

  lemma NumeratorBound(x: real, n: nat, d: nat, exp0: int)
    requires d > 0 && OnScale(x, n, d, PowR(10, exp0)) && x < PowR(10, exp0 + 1)
    ensures n < 10 * d
  {
    var t := PowR(10, exp0);
    PowRPositive(10, exp0); PowRStep(10, exp0);
    UnitsLess(x, 10.0 * t, d);
    assert Units(d, 10.0 * t) == Units(10 * d, t);
    ScaleLess(n as real, (10 * d) as real, t);
  }

  /** Changing the unit by a power of ten scales numerator or denominator. */
  lemma FinerUnit(x: real, n: nat, d: nat, exp0: int, j: nat)
    requires OnScale(x, n, d, PowR(10, exp0))
    ensures OnScale(x, n * Pow(10, j), d, PowR(10, exp0 - j))
  {
    PowRShift(10, exp0 - j, j);
    assert exp0 - j + j == exp0;
    RealProduct(n, Pow(10, j));
    Reassociate(n as real, PowR(10, exp0 - j), Pow(10, j) as real);
  }

  lemma Reassociate(x: real, y: real, z: real)
    ensures x * (y * z) == x * z * y
  {}

  lemma CoarserUnit(x: real, n: nat, d: nat, exp0: int)
    requires OnScale(x, n, d, PowR(10, exp0))
    ensures OnScale(x, n, 10 * d, PowR(10, exp0 + 1))
  {
    PowRStep(10, exp0);
    assert Units(10 * d, x) == 10.0 * Units(d, x);
    assert Units(n, 10.0 * PowR(10, exp0)) == 10.0 * Units(n, PowR(10, exp0));
  }

  lemma RoundedInReals(x: real, unit: real, n: nat, d: nat)
    requires d > 0 && unit > 0.0 && OnScale(x, n, d, unit)
    ensures RoundedTo(x, unit, RoundHalfEven(n, d))
  {
    var k := RoundHalfEven(n, d);
    RoundHalfEvenIsNearest(n, d);
    ErrorOnScale(x, unit, n, d, k);
    TwiceOnScale(x - Units(k, unit), n - k * d, d, unit);
    BoundInReals(2.0 * (x - Units(k, unit)), 2 * (n - k * d), d, unit);
  }

  lemma TwiceOnScale(y: real, z: int, d: nat, unit: real)
    requires OnScale(y, z, d, unit)
    ensures OnScale(2.0 * y, 2 * z, d, unit)
  {
    assert Units(d, 2.0 * y) == 2.0 * Units(d, y);
    assert Units(2 * z, unit) == 2.0 * Units(z, unit);
  }

  lemma BoundInReals(y: real, z: int, d: int, unit: real)
    requires d > 0 && unit > 0.0 && OnScale(y, z, d, unit) && -d <= z <= d
    ensures -unit <= y <= unit
    ensures y == unit ==> z == d
    ensures y == -unit ==> z == -d
  {
    UnitsLess(y, unit, d); UnitsLess(-unit, y, d); UnitsLess(unit, y, d); UnitsLess(y, -unit, d);
    CompareUnits(z, d, unit); CompareUnits(-d, z, unit);
    assert Units(d, -unit) == Units(-d, unit);
  }

  lemma ErrorOnScale(x: real, unit: real, n: int, d: nat, k: int)
    requires OnScale(x, n, d, unit)
    ensures OnScale(x - Units(k, unit), n - k * d, d, unit)
  {
    MultipleOnScale(k, d, unit);
    DifferenceOnScale(x, Units(k, unit), n, k * d, d, unit);
  }

  lemma MultipleOnScale(k: int, d: nat, unit: real)
    ensures OnScale(Units(k, unit), k * d, d, unit)
  {
    RealProduct(k, d);
    assert d as real * (k as real * unit) == k as real * d as real * unit;
  }

  lemma DifferenceOnScale(x: real, y: real, a: int, b: int, d: nat, unit: real)
    requires OnScale(x, a, d, unit) && OnScale(y, b, d, unit)
    ensures OnScale(x - y, a - b, d, unit) && OnScale(x + y, a + b, d, unit)
  {
    var dr := d as real;
    assert dr * (x - y) == dr * x - dr * y && dr * (x + y) == dr * x + dr * y;
    assert (a - b) as real * unit == a as real * unit - b as real * unit;
    assert (a + b) as real * unit == a as real * unit + b as real * unit;
  }

  // ---- The shortest digits in real numbers ----

  /** The fractions n / d, l / d and u / d of 10^exp0 are the number and the half gaps. */
  ghost predicate OnScales(v: Decoded, exp0: int, n: nat, d: nat, l: nat, u: nat) {
    && d > 0 && OnScale(Number(v), n, d, PowR(10, exp0))
    && OnScale(Below(v), l, d, PowR(10, exp0)) && OnScale(Above(v), u, d, PowR(10, exp0))
  }

  /** There are such fractions for every number and place. */
  lemma FractionOf(v: Decoded, exp0: int) returns (n: nat, d: nat, l: nat, u: nat)
    ensures OnScales(v, exp0, n, d, l, u) && l > 0 && u > 0
  {
    var shift := if v.closer then 2 else 1;
    var a, b, c := Pow(10, Positive(exp0)), Pow(2, Positive(-v.e)), Pow(2, shift);
    PowPositive(10, Positive(exp0)); PowPositive(2, Positive(-v.e)); PowPositive(2, shift);
    PowPositive(2, Positive(v.e)); PowPositive(10, Positive(-exp0));
    l := Pow(2, Positive(v.e)) * Pow(10, Positive(-exp0));
    d := c * a * b;
    ProductPositive(Pow(2, Positive(v.e)), Pow(10, Positive(-exp0)));
    ProductPositive(c, a); ProductPositive(c * a, b);
    RegroupFraction(l, a, b, c, Pow(2, Positive(v.e)), Pow(10, Positive(-exp0)));
    n, u := v.f * c * l, if v.closer then 2 * l else l;
    ScaledValue(v, shift, exp0, n, d, l, u);
  }

  lemma RegroupFraction(l: nat, a: nat, b: nat, c: nat, x: nat, y: nat)
    requires l == x * y
    ensures l * c * a * b == c * a * b * x * y
  {
    assert l * c * a * b == l * (c * a * b);
    assert c * a * b * x * y == c * a * b * (x * y);
  }

  lemma InInReals(v: Decoded, exp0: int, n: nat, d: nat, l: nat, u: nat, k: nat, m: int)
    requires OnScales(v, exp0, n, d, l, u)
    ensures var p, y := Pow(10, k), Units(m, PowR(10, exp0 - k));
            && (In(n * p, d, l * p, u * p, false, m) <==> ReadsBack(v, y))
            && (In(n * p, d, l * p, u * p, true, m) <==> ReadsBackOrTies(v, y))
  {
    var unit, p := PowR(10, exp0 - k), Pow(10, k);
    PowRPositive(10, exp0 - k);
    FinerUnit(Number(v), n, d, exp0, k); FinerUnit(Below(v), l, d, exp0, k); FinerUnit(Above(v), u, d, exp0, k);
    DifferenceOnScale(Number(v), Below(v), n * p, l * p, d, unit);
    DifferenceOnScale(Number(v), Above(v), n * p, u * p, d, unit);
    EndInReals(Number(v) - Below(v), n * p - l * p, d, unit, m);
    EndInReals(Number(v) + Above(v), n * p + u * p, d, unit, m);
  }

  lemma EndInReals(x: real, z: int, d: nat, unit: real, m: int)
    requires d > 0 && unit > 0.0 && OnScale(x, z, d, unit)
    ensures z < m * d <==> x < Units(m, unit)
    ensures m * d < z <==> Units(m, unit) < x
  {
    MultipleOnScale(m, d, unit);
    UnitsLess(x, Units(m, unit), d); UnitsLess(Units(m, unit), x, d);
    CompareUnits(z, m * d, unit); CompareUnits(m * d, z, unit);
  }

  lemma ShortestInReals(v: Decoded, exp0: int, n: nat, d: nat, l: nat, u: nat, buf: seq<char>)
    requires OnScales(v, exp0, n, d, l, u) && buf != [] && (AllDigits(buf) || buf == [':'])
    requires Shortest(n, d, l, u, v.f % 2 == 0, |buf|, Digits(buf))
    ensures ShortestDecimal(v, exp0, buf, exp0 - |buf| + 1)
  {
    var k := |buf| - 1;
    assert exp0 - k == exp0 - |buf| + 1;
    InInReals(v, exp0, n, d, l, u, k, Digits(buf));
    NearestInReals(v, exp0, n, d, l, u, k, Digits(buf));
    if k > 0 {
      NoneInsideInReals(v, exp0, n, d, l, u, k - 1);
      assert exp0 - (k - 1) == exp0 - |buf| + 1 + 1;
    }
  }

  lemma NoneInsideInReals(v: Decoded, exp0: int, n: nat, d: nat, l: nat, u: nat, k: nat)
    requires OnScales(v, exp0, n, d, l, u) && NoneAt(n, d, l, u, false, k)
    ensures NoneReadsBack(v, exp0 - k)
  {
    var unit := PowR(10, exp0 - k);
    forall m: int
      ensures !ReadsBack(v, Units(m, unit))
    {
      InInReals(v, exp0, n, d, l, u, k, m);
    }
  }

  lemma NearestInReals(v: Decoded, exp0: int, n: nat, d: nat, l: nat, u: nat, k: nat, value: int)
    requires OnScales(v, exp0, n, d, l, u)
    requires NoneNearer(n * Pow(10, k), d, l * Pow(10, k), u * Pow(10, k), value)
    ensures NearestReadingBack(v, exp0 - k, Units(value, PowR(10, exp0 - k)))
  {
    var unit := PowR(10, exp0 - k);
    forall m: int | ReadsBack(v, Units(m, unit))
      ensures AbsR(Number(v) - Units(value, unit)) <= AbsR(Number(v) - Units(m, unit))
    {
      NearerInReals(v, exp0, n, d, l, u, k, unit, value, m);
    }
  }

  lemma NearerInReals(v: Decoded, exp0: int, n: nat, d: nat, l: nat, u: nat, k: nat, unit: real, value: int, m: int)
    requires OnScales(v, exp0, n, d, l, u) && unit == PowR(10, exp0 - k) && ReadsBack(v, Units(m, unit))
    requires NoneNearer(n * Pow(10, k), d, l * Pow(10, k), u * Pow(10, k), value)
    ensures AbsR(Number(v) - Units(value, unit)) <= AbsR(Number(v) - Units(m, unit))
  {
    FinerUnit(Number(v), n, d, exp0, k);
    PowRPositive(10, exp0 - k);
    InInReals(v, exp0, n, d, l, u, k, m);
    var p := Pow(10, k);
    assert Abs(n * p - value * d) <= Abs(n * p - m * d);
    DistanceInReals(Number(v), unit, n * p, d, value, m);
  }

  lemma DistanceInReals(x: real, unit: real, n: nat, d: nat, q: int, m: int)
    requires d > 0 && unit > 0.0 && OnScale(x, n, d, unit)
    ensures Abs(n - q * d) < Abs(n - m * d) <==> AbsR(x - Units(q, unit)) < AbsR(x - Units(m, unit))
    ensures Abs(n - q * d) == Abs(n - m * d) <==> AbsR(x - Units(q, unit)) == AbsR(x - Units(m, unit))
  {
    ErrorOnScale(x, unit, n, d, q); ErrorOnScale(x, unit, n, d, m);
    AbsOnScale(x - Units(q, unit), n - q * d, d, unit);
    AbsOnScale(x - Units(m, unit), n - m * d, d, unit);
    CompareUnits(Abs(n - q * d), Abs(n - m * d), unit);
    UnitsLess(AbsR(x - Units(q, unit)), AbsR(x - Units(m, unit)), d);
  }

  lemma AbsOnScale(y: real, z: int, d: nat, unit: real)
    requires d > 0 && unit > 0.0 && OnScale(y, z, d, unit)
    ensures OnScale(AbsR(y), Abs(z), d, unit)
  {
    UnitsLess(y, 0.0, d);
    CompareUnits(z, 0, unit);
    assert Units(d, -y) == -Units(d, y) && Units(-z, unit) == -Units(z, unit);
  }

  // ---- The decimal wanted, in real numbers ----

  lemma BestInReals(v: Decoded, exp0: int, n: nat, d: nat, l: nat, u: nat, k: nat, q: int)
    requires OnScales(v, exp0, n, d, l, u)
    ensures BestAt(n, d, l, u, v.f % 2 == 0, k, q) <==> BestDecimal(v, exp0 - k, q)
  {
    var unit, p, even := PowR(10, exp0 - k), Pow(10, k), v.f % 2 == 0;
    PowRPositive(10, exp0 - k);
    FinerUnit(Number(v), n, d, exp0, k);
    forall m: int
      ensures In(n * p, d, l * p, u * p, even, m) <==> ReadsAs(v, Units(m, unit))
      ensures Nearer(n * p, d, q, m) <==> NearerDecimal(Number(v), unit, q, m)
    {
      InInReals(v, exp0, n, d, l, u, k, m);
      DistanceInReals(Number(v), unit, n * p, d, q, m);
    }
  }

  lemma NoneInReals(v: Decoded, exp0: int, n: nat, d: nat, l: nat, u: nat, k: nat)
    requires OnScales(v, exp0, n, d, l, u)
    ensures NoneAt(n, d, l, u, v.f % 2 == 0, k) <==> NoDecimal(v, exp0 - k)
  {
    var unit, p, even := PowR(10, exp0 - k), Pow(10, k), v.f % 2 == 0;
    forall m: int
      ensures In(n * p, d, l * p, u * p, even, m) <==> ReadsAs(v, Units(m, unit))
    {
      InInReals(v, exp0, n, d, l, u, k, m);
    }
  }

  lemma ExactInReals(v: Decoded, exp0: int, n: nat, d: nat, l: nat, u: nat, length: nat, q: int)
    requires OnScales(v, exp0, n, d, l, u)
    ensures Exact(n, d, l, u, v.f % 2 == 0, length, q) <==> IsShortest(v, exp0, length, q)
  {
    if length > 0 {
      assert exp0 - (length - 1) == exp0 - length + 1;
      BestInReals(v, exp0, n, d, l, u, length - 1, q);
    }
    if length > 1 {
      assert exp0 - (length - 2) == exp0 - length + 2;
      NoneInReals(v, exp0, n, d, l, u, length - 2);
    }
  }

  /** There is only one decimal wanted. */
  lemma ShortestIsUnique(v: Decoded, exp0: int, length: nat, q: int, length': nat, q': int)
    requires IsShortest(v, exp0, length, q) && IsShortest(v, exp0, length', q')
    ensures length == length' && q == q'
  {
    var n, d, l, u := FractionOf(v, exp0);
    ExactInReals(v, exp0, n, d, l, u, length, q);
    ExactInReals(v, exp0, n, d, l, u, length', q');
    ExactIsUnique(n, d, l, u, v.f % 2 == 0, length, q, length', q');
  }

  lemma EndInRealsToo(v: Decoded, exp0: int, n: nat, d: nat, l: nat, u: nat, length: nat, q: int)
    requires OnScales(v, exp0, n, d, l, u) && v.f % 2 == 0
    ensures EndIsExact(n, d, l, u, length, q) <==> EndIsShortest(v, exp0, length, q)
  {
    ExactInReals(v, exp0, n, d, l, u, length, q);
    if length > 0 {
      var k := length - 1;
      var unit, p := PowR(10, exp0 - k), Pow(10, k);
      assert exp0 - k == exp0 - length + 1;
      PowRPositive(10, exp0 - k);
      FinerUnit(Number(v), n, d, exp0, k); FinerUnit(Below(v), l, d, exp0, k);
      DifferenceOnScale(Number(v), Below(v), n * p, l * p, d, unit);
      EndInReals(Number(v) - Below(v), n * p - l * p, d, unit, q);
    }
  }

  lemma MissesInReals(v: Decoded, exp0: int, n: nat, d: nat, l: nat, u: nat)
    requires OnScales(v, exp0, n, d, l, u)
    ensures Misses(n, d, l, u, v.f % 2 == 0, KeepsEnd(v, exp0)) <==> MissesEnd(v, exp0)
  {
    if v.f % 2 == 0 {
      forall length: nat, q: int
        ensures EndIsExact(n, d, l, u, length, q) <==> EndIsShortest(v, exp0, length, q)
      {
        EndInRealsToo(v, exp0, n, d, l, u, length, q);
      }
    }
  }

  lemma OverflowInReals(v: Decoded, exp0: int, n: nat, d: nat, l: nat, u: nat)
    requires OnScales(v, exp0, n, d, l, u)
    ensures Overflow(n, d, l, u, v.f % 2 == 0, KeepsEnd(v, exp0)) <==> Overflows(v, exp0)
  {
    var x, unit := Number(v), PowR(10, exp0);
    PowRPositive(10, exp0);
    DifferenceOnScale(x, Below(v), n, l, d, unit);
    DifferenceOnScale(x, Above(v), n, u, d, unit);
    TwiceOnScale(x, n, d, unit);
    EndInReals(x, n, d, unit, 9);
    EndInReals(x + Above(v), n + u, d, unit, 10);
    EndInReals(x - Below(v), n - l, d, unit, 9);
    EndInReals(2.0 * x, 2 * n, d, unit, 19);
  }

  /** When the interval is narrower than a unit, reaching the next power of ten is all it takes to overflow. */
  lemma NarrowOverflow(v: Decoded, exp0: int)
    requires Below(v) + Above(v) < PowR(10, exp0)
    ensures Overflows(v, exp0) <==> ReachesTen(v, exp0)
  {
    PowRPositive(2, v.e);
  }

  // ---- At inputs ----

  /** On the lower end of the interval of an even number, a decimal is best exactly when its place is wider than the gap
      below, or as wide and the decimal is even. */
  lemma EndIsBest(v: Decoded, place: int, q: int)
    requires v.f % 2 == 0 && Units(q, PowR(10, place)) == Number(v) - Below(v)
    ensures BestDecimal(v, place, q) <==>
            2.0 * Below(v) < PowR(10, place) || (2.0 * Below(v) == PowR(10, place) && q % 2 == 0)
  {
    var unit := PowR(10, place);
    PowRPositive(10, place); PowRPositive(2, v.e);
    NextUnits(q, unit);
    assert ReadsAs(v, Units(q, unit));
    if 2.0 * Below(v) < unit || (2.0 * Below(v) == unit && q % 2 == 0) {
      forall m: int | ReadsAs(v, Units(m, unit)) && m != q
        ensures NearerDecimal(Number(v), unit, q, m)
      {
        UnitSteps(q, m, unit);
      }
    } else {
      assert ReadsAs(v, Units(q + 1, unit));
    }
  }

  /** The double 3.584e25: the decimal wanted is 3584 * 10^22, the closed lower end of its interval, and the search for
      it from 10^25 down misses it. */
  lemma MissedDouble(v: Decoded)
    requires v == Decoded(8344650268554688, 32, false)
    ensures DecodeBits(0x4530_0000_0000_0000 + 3841050641184192, false) == v
    ensures Number(v) < PowR(10, 26) && EndIsShortest(v, 25, 4, 3584) && MissesEnd(v, 25)
  {
    BitsAre(1107, 3841050641184192);
    Powers();
    EndIsBest(v, 22, 3584);
    var unit := PowR(10, 23);
    forall m: int
      ensures !ReadsAs(v, Units(m, unit))
    {
      UnitSteps(358, m, unit);
    }
  }

  /** A double from its biased exponent and fraction. */
  lemma BitsAre(biased: nat, fraction: nat)
    requires biased > 0 && fraction < 0x10_0000_0000_0000
    ensures DecodeBits(biased * 0x10_0000_0000_0000 + fraction, false)
            == FromFields(biased, fraction, 0x10_0000_0000_0000, 1075)
  {
    PowersOfWidth();
    DivUnique(biased * 0x10_0000_0000_0000 + fraction, 0x10_0000_0000_0000, biased, fraction);
  }

  lemma Powers()
    ensures PowR(2, 24) == 16777216.0 && PowR(2, 32) == 4294967296.0
    ensures PowR(10, 22) == 10000000000000000000000.0 && PowR(10, 23) == 100000000000000000000000.0
    ensures PowR(10, 26) == 100000000000000000000000000.0
  {
    PowersOfTwo();
    PowersOfTen();
    PowRIsPow(2, 24); PowRIsPow(2, 32); PowRIsPow(10, 22);
    PowRStep(10, 22); PowRStep(10, 23); PowRStep(10, 24); PowRStep(10, 25);
  }

  lemma PowersOfTwo()
    ensures Pow(2, 24) == 16777216 && Pow(2, 32) == 4294967296
  {
    assert Pow(2, 8) == 256;
    PowAdd(2, 8, 8); PowAdd(2, 16, 8); PowAdd(2, 24, 8);
  }

  lemma PowersOfTen()
    ensures Pow(10, 22) == 10000000000000000000000
  {
    assert Pow(10, 6) == 1000000 && Pow(10, 8) == 100000000;
    PowAdd(10, 8, 8); PowAdd(10, 16, 6);
  }

  /** The double before 1e23, whose interval ends at 1e23: the search from 10^22 down writes the overflow character. */
  lemma OverflowingDouble(v: Decoded)
    requires v == Decoded(5960464477539062, 24, false)
    ensures DecodeBits(0x44b0_0000_0000_0000 + 1456864850168566, false) == v
    ensures Number(v) < PowR(10, 23) && Overflows(v, 22)
  {
    BitsAre(1099, 1456864850168566);
    Powers();
  }

  /** Reaching the next power of ten is not enough: 8 with half a gap of 4 is written with its own digit. */
  lemma WideWithoutOverflow(v: Decoded)
    requires v == Decoded(1, 3, false)
    ensures Number(v) < PowR(10, 1) && ReachesTen(v, 0) && !Overflows(v, 0)
  {
    assert PowR(2, 1) == 2.0 && PowR(2, 2) == 4.0 && PowR(2, 3) == 8.0;
    assert PowR(10, 0) == 1.0 && PowR(10, 1) == 10.0;
  }

  lemma UnitSteps(q: int, m: int, unit: real)
    requires unit > 0.0
    ensures m < q ==> Units(m, unit) < Units(q, unit)
    ensures m > q ==> Units(m, unit) >= Units(q, unit) + unit
  {
    NextUnits(q, unit);
    CompareUnits(m, q, unit); CompareUnits(m, q + 1, unit);
  }

  lemma CarryInReals(digits: int, exp10: int)
    ensures Units(digits, PowR(10, exp10 + 1)) == Units(10 * digits, PowR(10, exp10))
  {
    PowRStep(10, exp10);
  }
}
