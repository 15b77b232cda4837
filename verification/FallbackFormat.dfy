/** `fallback_format`: exact conversion of a binary floating-point number to decimal digits. */
module FallbackFormat {
  import opened Words
  import opened Bigits
  import opened BigInts
  import opened Decimals
  import opened FloatBits
  import opened RealScale
  import opened RoundingInterval
  import opened DecimalPromise
  import opened DigitGeneration

  // ---- Setting up the fraction ----

  /** The exponents the branches leave in lower and the denominator. */
  predicate ExponentsFor(e: int, shift: nat, exp10: int, lowerExp: nat, denominatorExp: nat) {
    if e >= 0 then lowerExp == e / 32 && denominatorExp == exp10 / 32
    else if exp10 < 0 then lowerExp == -exp10 / 32 && denominatorExp == (shift - e) / 32
    else lowerExp == 0
  }

  /** What all three set-up branches establish: numerator / denominator is f * 2^e / 10^exp10, lower / denominator
      is half the gap to the predecessor on the same scale, upper half the gap to the successor. */
  ghost predicate SetUpFor(f: nat, e: int, shift: nat, exp10: int,
                           numerator: BigInt, denominator: BigInt, lower: BigInt, upper: BigInt?)
    reads numerator, denominator, lower, upper
  {
    && TopNonZero(lower.bigits) && TopNonZero(numerator.bigits) && TopNonZero(denominator.bigits)
    && FractionFor(f, e, shift, exp10, numerator.Value(), denominator.Value(), lower.Value())
    && (if shift == 1 then upper == null
        else upper != null && TopNonZero(upper.bigits) && upper.Value() == 2 * lower.Value())
    && numerator.exp == lower.exp && ExponentsFor(e, shift, exp10, lower.exp, denominator.exp)
    && Dividing(numerator, denominator, numerator.Value(), 0)
  }

  method SetUp(f: nat, e: int, shift: nat, exp10: int)
    returns (numerator: BigInt, denominator: BigInt, lower: BigInt, upper: BigInt?)
    requires 0 < f < 0x20_0000_0000_0000 && 1 <= shift <= 2
    requires e >= 0 ==> exp10 >= 0
    requires -0x4000_0000 < exp10 < 0x4000_0000
    ensures fresh(numerator) && fresh(denominator) && fresh(lower) && (upper != null ==> fresh(upper))
    ensures numerator != denominator && numerator != lower && denominator != lower
    ensures upper != null ==> upper != numerator && upper != denominator && upper != lower
    ensures SetUpFor(f, e, shift, exp10, numerator, denominator, lower, upper)
  {
    var significand := Significand(f, shift);
    if e >= 0 {
      numerator, denominator, lower, upper := SetUpInteger(f, e, shift, exp10, significand);
    } else if exp10 < 0 {
      numerator, denominator, lower, upper := SetUpFraction(f, e, shift, exp10, significand);
    } else {
      numerator, denominator, lower, upper := SetUpMixed(f, e, shift, exp10, significand);
    }
  }

  /** `value.f << shift`. */
  function Significand(f: nat, shift: nat): (significand: U64)
    requires 0 < f < 0x20_0000_0000_0000 && 1 <= shift <= 2
    ensures significand == f * Pow(2, shift) && significand > 0
  {
    assert Pow(2, 1) == 2 && Pow(2, 2) == 4;
    f * Pow(2, shift)
  }

  method FromWord(n: U64) returns (b: BigInt)
    requires n > 0
    ensures fresh(b) && b.Value() == n && b.exp == 0 && b.Trimmed() && TopNonZero(b.bigits)
  {
    b := new BigInt();
    b.AssignWord(n);
  }

  method Shifted(n: U64, shift: nat) returns (b: BigInt)
    requires n > 0
    ensures fresh(b) && b.Value() == n * Pow(2, shift) && b.Value() > 0
    ensures b.exp == shift / 32 && b.Trimmed() && TopNonZero(b.bigits)
  {
    b := FromWord(n);
    b.ShiftLeft(shift);
    ValueLowerBound(b.bigits, b.exp);
  }

  method ShiftedPow10(exp10: nat, shift: nat) returns (b: BigInt)
    requires exp10 < 0x4000_0000
    ensures fresh(b) && b.Value() == Pow(10, exp10) * Pow(2, shift)
    ensures b.exp == exp10 / 32 + shift / 32 && TopNonZero(b.bigits)
  {
    b := new BigInt();
    b.AssignPow10(exp10);
    b.ShiftLeft(shift);
  }

  method Doubled(a: BigInt) returns (b: BigInt)
    requires TopNonZero(a.bigits)
    ensures fresh(b) && b.Value() == 2 * a.Value() && TopNonZero(b.bigits)
  {
    b := new BigInt();
    b.Assign(a);
    b.ShiftLeft(1);
    assert Pow(2, 1) == 2;
  }

  /** The branch `value.e >= 0`. */
  method SetUpInteger(ghost f: nat, e: nat, shift: nat, exp10: nat, significand: U64)
    returns (numerator: BigInt, denominator: BigInt, lower: BigInt, upper: BigInt?)
    requires f > 0 && 1 <= shift <= 2 && significand == f * Pow(2, shift) > 0 && exp10 < 0x4000_0000
    ensures fresh(numerator) && fresh(denominator) && fresh(lower) && (upper != null ==> fresh(upper))
    ensures numerator != denominator && numerator != lower && denominator != lower
    ensures upper != null ==> upper != numerator && upper != denominator && upper != lower
    ensures SetUpFor(f, e, shift, exp10, numerator, denominator, lower, upper)
  {
    numerator := Shifted(significand, e);
    lower := Shifted(1, e);
    upper := null;
    if shift != 1 { upper := Shifted(1, e + 1); }
    denominator := ShiftedPow10(exp10, shift);
    IntegerUnits(f, e, shift, exp10, significand, numerator.Value(), denominator.Value(), lower.Value());
    NotHitByInteger(numerator.Value(), denominator.Value(), f, Pow(2, shift), e, exp10);
    DividingStarts(numerator, denominator);
  }

  lemma IntegerUnits(f: nat, e: int, shift: nat, exp10: int, significand: nat, n: nat, d: nat, l: nat)
    requires e >= 0 && exp10 >= 0
    requires significand == f * Pow(2, shift) && n == significand * Pow(2, e) && l == Pow(2, e)
    requires d == Pow(10, exp10) * Pow(2, shift)
    ensures FractionFor(f, e, shift, exp10, n, d, l)
  {
    var s, t := Pow(2, shift), Pow(10, exp10);
    assert Positive(e) == e && Positive(-e) == 0 && Positive(exp10) == exp10 && Positive(-exp10) == 0;
    Commute(l, s, t);
  }

  lemma Commute(l: nat, s: nat, t: nat)
    ensures l * s * t == t * s * l
  {}

  /** The branch `exp10 < 0`. */
  method SetUpFraction(ghost f: nat, e: int, shift: nat, exp10: int, significand: U64)
    returns (numerator: BigInt, denominator: BigInt, lower: BigInt, upper: BigInt?)
    requires f > 0 && e < 0 && 1 <= shift <= 2 && significand == f * Pow(2, shift) > 0
    requires -0x4000_0000 < exp10 < 0
    ensures fresh(numerator) && fresh(denominator) && fresh(lower) && (upper != null ==> fresh(upper))
    ensures numerator != denominator && numerator != lower && denominator != lower
    ensures upper != null ==> upper != numerator && upper != denominator && upper != lower
    ensures SetUpFor(f, e, shift, exp10, numerator, denominator, lower, upper)
  {
    numerator := new BigInt();
    numerator.AssignPow10(-exp10);
    lower := new BigInt();
    lower.Assign(numerator);
    upper := null;
    if shift != 1 { upper := Doubled(numerator); }
    numerator.MultiplyDouble(significand);
    denominator := Shifted(1, shift - e);
    FractionUnits(f, e, shift, exp10, significand, numerator.Value(), denominator.Value(), lower.Value());
    NotHitByFraction(numerator.Value(), denominator.Value(), significand, -exp10, shift - e);
    DividingStarts(numerator, denominator);
  }

  lemma FractionUnits(f: nat, e: int, shift: nat, exp10: int, significand: nat, n: nat, d: nat, l: nat)
    requires e < 0 && exp10 < 0
    requires significand == f * Pow(2, shift) && n == Pow(10, -exp10) * significand && l == Pow(10, -exp10)
    requires d == Pow(2, shift - e)
    ensures FractionFor(f, e, shift, exp10, n, d, l)
  {
    PowAdd(2, shift, -e);
    var s, w := Pow(2, shift), Pow(2, -e);
    assert l * s * w == d * l;
  }

  /** The branch `value.e < 0 && exp10 >= 0`. */
  method SetUpMixed(ghost f: nat, e: int, shift: nat, exp10: nat, significand: U64)
    returns (numerator: BigInt, denominator: BigInt, lower: BigInt, upper: BigInt?)
    requires f > 0 && e < 0 && 1 <= shift <= 2 && significand == f * Pow(2, shift) > 0 && exp10 < 0x4000_0000
    ensures fresh(numerator) && fresh(denominator) && fresh(lower) && (upper != null ==> fresh(upper))
    ensures numerator != denominator && numerator != lower && denominator != lower
    ensures upper != null ==> upper != numerator && upper != denominator && upper != lower
    ensures SetUpFor(f, e, shift, exp10, numerator, denominator, lower, upper)
  {
    numerator := FromWord(significand);
    denominator := ShiftedPow10(exp10, shift - e);
    lower := FromWord(1);
    upper := null;
    if shift != 1 { upper := FromWord(2); }
    MixedUnits(f, e, shift, exp10, significand, denominator.Value());
    DividingStarts(numerator, denominator);
  }

  lemma MixedUnits(f: nat, e: int, shift: nat, exp10: nat, significand: nat, d: nat)
    requires e < 0 && significand == f * Pow(2, shift) && d == Pow(10, exp10) * Pow(2, shift - e)
    ensures FractionFor(f, e, shift, exp10, significand, d, 1)
  {
    PowAdd(2, shift, -e);
    var s, t, w := Pow(2, shift), Pow(10, exp10), Pow(2, -e);
    assert s * t * w == t * (s * w);
  }

  lemma DividingStarts(numerator: BigInt, denominator: BigInt)
    requires numerator != denominator && TopNonZero(numerator.bigits) && TopNonZero(denominator.bigits)
    requires numerator.exp <= denominator.exp || NeverHits(numerator.Value(), denominator.Value())
    ensures Dividing(numerator, denominator, numerator.Value(), 0)
  {
    ValueLowerBound(numerator.bigits, numerator.exp);
    assert Pow(10, 0) == 1;
  }

  // ---- Why the first comparison is never fooled ----

  lemma {:induction false} PowerOfFiveIsOdd(k: nat)
    ensures Pow(5, k) % 2 == 1
  {
    if k == 0 {
    } else {
      PowerOfFiveIsOdd(k - 1);
      assert Pow(5, k) == 2 * (2 * Pow(5, k - 1)) + Pow(5, k - 1);
    }
  }

  lemma {:induction false} PowerOfTwoHasNoFive(k: nat)
    ensures Pow(2, k) % 5 != 0
  {
    if k == 0 {
    } else {
      PowerOfTwoHasNoFive(k - 1);
    }
  }

  /** With e above exp10 the numerator keeps more factors 2 than the denominator has. */
  lemma NotHitByInteger(n: nat, d: nat, f: nat, s: nat, e: nat, exp10: nat)
    requires f > 0 && s > 0 && n == f * s * Pow(2, e) && d == Pow(10, exp10) * s
    ensures e > exp10 ==> NeverHits(n, d)
  {
    if e > exp10 {
      var t, w := Pow(2, exp10), Pow(2, e - exp10 - 1);
      PowAdd(2, exp10, e - exp10); PowProduct(5, 2, exp10);
      PowPositive(2, exp10); PowerOfFiveIsOdd(exp10);
      assert Pow(2, e) == t * (2 * w);
      forall i: nat
        ensures n * Pow(10, i) != d
      {
        MoreTwos(f, s, t, w, Pow(10, i), Pow(5, exp10));
      }
    }
  }

  lemma MoreTwos(f: nat, s: nat, t: nat, w: nat, m: nat, five: nat)
    requires s > 0 && t > 0 && five % 2 == 1
    ensures f * s * (t * (2 * w)) * m != five * t * s
  {
    var x := f * w * m;
    PullOut(f, s, t, w, m);
    if s * t * (2 * x) == five * t * s {
      assert five * t * s == s * t * five;
      ProductPositive(s, t);
      if 2 * x < five { MulStrict(2 * x, five, s * t); } else { MulStrict(five, 2 * x, s * t); }
    }
  }

  lemma PullOut(f: nat, s: nat, t: nat, w: nat, m: nat)
    ensures f * s * (t * (2 * w)) * m == s * t * (2 * (f * w * m))
  {
    Regroup(f, s, t, 2 * w);
    assert f * s * (t * (2 * w)) == (f * t) * (s * (2 * w));
    assert (f * t) * (s * (2 * w)) * m == s * t * (2 * (f * w * m));
  }

  /** A numerator with a factor 5 never meets a power of two. */
  lemma NotHitByFraction(n: nat, d: nat, significand: nat, k: nat, j: nat)
    requires k > 0 && n == Pow(10, k) * significand && d == Pow(2, j)
    ensures NeverHits(n, d)
  {
    PowerOfTwoHasNoFive(j);
    forall i: nat
      ensures n * Pow(10, i) != d
    {
      assert Pow(10, k) == 10 * Pow(10, k - 1);
      FactorFive(Pow(10, k - 1), significand, Pow(10, i));
    }
  }

  lemma FactorFive(p: nat, s: nat, m: nat)
    ensures 10 * p * s * m % 5 == 0
  {
    assert 10 * p * s * m == 5 * (2 * (p * s * m));
  }
  // ---- The conversion ----

  /** The estimate of the place bounds the exponents: it is not negative for an integer, and in the second branch the
      denominator's exponent is not below the numerator's. */
  lemma PlaceBounds(v: Decoded, exp0: int)
    requires v.f > 0 && Number(v) < PowR(10, exp0 + 1)
    ensures v.e >= 0 ==> exp0 >= 0
    ensures v.e < 0 && exp0 < 0 ==> -exp0 <= -v.e
  {
    PowRPositive(2, v.e);
    CompareUnits(1, v.f, PowR(2, v.e));
    if exp0 < 0 && v.e >= exp0 + 1 {
      PowRGrows(2, exp0 + 1, v.e);
      PowRShrinks(exp0 + 1);
    }
  }

  lemma LowerIsSmaller(f: nat, shift: nat, l: nat, n: nat)
    requires f > 0 && shift > 0 && l > 0 && n == f * Pow(2, shift) * l
    ensures l < n
  {
    PowPositive(2, shift - 1);
    ProductPositive(f, Pow(2, shift - 1));
    assert f * Pow(2, shift) == 2 * (f * Pow(2, shift - 1));
    MulStrict(1, f * Pow(2, shift), l);
  }

  /** `fallback_format` on a decoded number; numDigits < 0 asks for the shortest digits. These are the decimal wanted
      exactly when the search does not miss the lower end, and the overflow character exactly when the first digit
      overflows. */
  method Format(v: Decoded, numDigits: int, exp0: int) returns (buf: seq<char>, exp10: int)
    requires 0 < v.f < 0x20_0000_0000_0000 && -0x4000_0000 < exp0 < 0x4000_0000
    requires Number(v) < PowR(10, exp0 + 1)
    ensures numDigits >= 0 ==> CorrectlyRounded(Number(v), numDigits, exp0, buf, exp10)
    ensures numDigits < 0 ==> ShortestDecimal(v, exp0, buf, exp10)
    ensures numDigits < 0 ==> (IsShortest(v, exp0, |buf|, Digits(buf)) <==> !MissesEnd(v, exp0))
    ensures numDigits < 0 ==> (buf == [':'] <==> Overflows(v, exp0))
  {
    PlaceBounds(v, exp0);
    var shift := if v.closer then 2 else 1;
    var numerator, denominator, lower, upper := SetUp(v.f, v.e, shift, exp0);
    ghost var n, d, l := numerator.Value(), denominator.Value(), lower.Value();
    ghost var u := if upper == null then l else upper.Value();
    ValueLowerBound(denominator.bigits, denominator.exp); ValueLowerBound(lower.bigits, lower.exp);
    ScaledValue(v, shift, exp0, n, d, l, u);
    NumeratorBound(Number(v), n, d, exp0);
    LowerIsSmaller(v.f, shift, l, n);
    if numDigits < 0 {
      buf := ShortestDigits(numerator, denominator, lower, upper, v.f % 2 == 0);
      exp10 := exp0 - (|buf| - 1);
      ShortestPromise(v, exp0, n, d, l, u, buf);
    } else {
      buf, exp10 := FormatFixed(numerator, denominator, numDigits, exp0, Number(v));
    }
  }

  lemma ShortestPromise(v: Decoded, exp0: int, n: nat, d: nat, l: nat, u: nat, buf: seq<char>)
    requires OnScales(v, exp0, n, d, l, u)
    requires ShortestOf(n, d, l, u, v.f % 2 == 0, KeepsEnd(v, exp0), buf)
    ensures ShortestDecimal(v, exp0, buf, exp0 - |buf| + 1)
    ensures IsShortest(v, exp0, |buf|, Digits(buf)) <==> !MissesEnd(v, exp0)
    ensures buf == [':'] <==> Overflows(v, exp0)
  {
    ShortestInReals(v, exp0, n, d, l, u, buf);
    ExactInReals(v, exp0, n, d, l, u, |buf|, Digits(buf));
    MissesInReals(v, exp0, n, d, l, u);
    OverflowInReals(v, exp0, n, d, l, u);
  }

  /** `fallback_format` on the bits of a positive finite number: its shortest digits are no further from that number
      than from either neighbour, and nearer when its significand is odd. */
  method FormatBits(u: nat, binary32: bool, numDigits: int, exp0: int) returns (buf: seq<char>, exp10: int)
    requires 0 < u < (if binary32 then 0x7f80_0000 else 0x7ff0_0000_0000_0000)
    requires -0x4000_0000 < exp0 < 0x4000_0000
    requires Number(DecodeBits(u, binary32)) < PowR(10, exp0 + 1)
    ensures numDigits >= 0 ==> CorrectlyRounded(Number(DecodeBits(u, binary32)), numDigits, exp0, buf, exp10)
    ensures numDigits < 0 ==>
      var v, y := DecodeBits(u, binary32), Decimal(buf, exp10);
      && ShortestDecimal(v, exp0, buf, exp10) && (IsShortest(v, exp0, |buf|, Digits(buf)) <==> !MissesEnd(v, exp0))
      && (buf == [':'] <==> Overflows(v, exp0))
      && AbsR(y - Number(v)) <= AbsR(y - Number(DecodeBits(u - 1, binary32)))
      && AbsR(y - Number(v)) <= AbsR(y - Number(DecodeBits(u + 1, binary32)))
      && (v.f % 2 != 0 ==>
            && AbsR(y - Number(v)) < AbsR(y - Number(DecodeBits(u - 1, binary32)))
            && AbsR(y - Number(v)) < AbsR(y - Number(DecodeBits(u + 1, binary32))))
  {
    DecodedIsPositive(u, binary32);
    var v := DecodeBits(u, binary32);
    buf, exp10 := Format(v, numDigits, exp0);
    if binary32 {
      ReadsBackIsNearest(u, 23, 127, Decimal(buf, exp10));
    } else {
      ReadsBackIsNearest(u, 52, 1023, Decimal(buf, exp10));
    }
  }

  /** The significand fits 53 bits and is not zero. */
  lemma DecodedIsPositive(u: nat, binary32: bool)
    requires u > 0
    ensures 0 < DecodeBits(u, binary32).f < 0x20_0000_0000_0000
  {
    PowersOfWidth();
  }

  lemma Conclude(x: real, n: nat, exp0: int, buf: seq<char>, exp10: int, place: int, k: nat)
    requires |buf| == (if n == 0 then 1 else n) && AllDigits(buf) && place == exp0 - n + 1
    requires exp10 == place || (n > 0 && exp10 == place + 1)
    requires RoundedTo(x, PowR(10, place), k) && Decimal(buf, exp10) == Units(k, PowR(10, place))
    ensures CorrectlyRounded(x, n, exp0, buf, exp10)
  {}

  /** The given number of digits, possibly none. */
  method FormatFixed(numerator: BigInt, denominator: BigInt, numDigits: nat, exp0: int, ghost x: real)
    returns (buf: seq<char>, exp10: int)
    requires Dividing(numerator, denominator, numerator.Value(), 0)
    requires 0 < numerator.Value() < 10 * denominator.Value()
    requires OnScale(x, numerator.Value(), denominator.Value(), PowR(10, exp0))
    modifies numerator, denominator
    ensures CorrectlyRounded(x, numDigits, exp0, buf, exp10)
  {
    ghost var n, d := numerator.Value(), denominator.Value();
    exp10 := exp0 - (numDigits - 1);
    ghost var unit := PowR(10, exp10);
    PowRPositive(10, exp10);
    if numDigits == 0 {
      buf := NoDigits(numerator, denominator);
      CoarserUnit(x, n, d, exp0);
      RoundedInReals(x, unit, n, 10 * d);
      Conclude(x, numDigits, exp0, buf, exp10, exp10, RoundHalfEven(n, 10 * d));
      return;
    }
    var longer;
    buf, longer := FixedDigits(numerator, denominator, numDigits);
    ghost var scaled := n * Pow(10, numDigits - 1);
    FinerUnit(x, n, d, exp0, numDigits - 1);
    RoundedInReals(x, unit, scaled, d);
    if longer {
      CarryInReals(Digits(buf), exp10);
      exp10 := exp10 + 1;
    }
    Conclude(x, numDigits, exp0, buf, exp10, exp0 - (numDigits - 1), RoundHalfEven(scaled, d));
  }
}
