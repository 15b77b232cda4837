/** The digit loops of `fallback_format` over `bigint`: numerator / denominator, digit by digit. */
module DigitGeneration {
  import opened Words
  import opened Bigits
  import opened BigInts
  import opened Decimals
  import opened RoundingInterval

  /** No power of ten takes n to d, so the two can never compare equal along the way. */
  ghost predicate NeverHits(n: nat, d: nat) {
    forall i: nat :: n * Pow(10, i) != d
  }

  /** The numerator is fit to be divided: while its exponent is still above the denominator's, it is the initial
      numerator n0 scaled by pow(10, i), which never equals the denominator. */
  ghost predicate Dividing(numerator: BigInt, denominator: BigInt, n0: nat, i: nat)
    reads numerator, denominator
  {
    && numerator != denominator
    && TopNonZero(denominator.bigits)
    && numerator.bigits != [] && numerator.Trimmed()
    && (numerator.Value() == 0 ==> numerator.exp <= denominator.exp)
    && (numerator.exp <= denominator.exp
        || (numerator.Value() == n0 * Pow(10, i) && NeverHits(n0, denominator.Value())))
  }

  /** One decimal digit: the quotient, leaving the remainder in the numerator. */
  method NextDigit(numerator: BigInt, denominator: BigInt, ghost n0: nat, ghost i: nat) returns (digit: nat)
    requires Dividing(numerator, denominator, n0, i) && numerator.Value() < 10 * denominator.Value()
    modifies numerator
    ensures Dividing(numerator, denominator, n0, i)
    ensures old(numerator.Value()) == digit * denominator.Value() + numerator.Value()
    ensures numerator.Value() < denominator.Value() && digit <= 9
    ensures numerator.exp == if digit > 0 && old(numerator.exp) > denominator.exp then denominator.exp
                             else old(numerator.exp)
  {
    ghost var n, d := numerator.Value(), denominator.Value();
    ZeroIsNotLonger(numerator, denominator);
    digit := numerator.DivModAssign(denominator);
    if digit > 9 { MulMonotone(10, digit, d); }
  }

  /** A zero dividend is not longer than the divisor, others have no leading zero. */
  lemma ZeroIsNotLonger(n: BigInt, d: BigInt)
    requires n.bigits != [] && n.Trimmed() && TopNonZero(d.bigits) && (n.Value() == 0 ==> n.exp <= d.exp)
    ensures NotOverlong(n, d)
  {
    if n.Value() > 0 {
      LargeIsNormal(n);
    } else {
      ZeroIsShort(n);
    }
  }

  /** `numerator *= 10`. */
  method TimesTen(numerator: BigInt, denominator: BigInt, ghost n0: nat, ghost i: nat)
    requires Dividing(numerator, denominator, n0, i)
    modifies numerator
    ensures Dividing(numerator, denominator, n0, i + 1)
    ensures numerator.Value() == 10 * old(numerator.Value()) && numerator.exp == old(numerator.exp)
  {
    numerator.MultiplyWord(10);
  }

  /** The comparison of twice the remainder with the denominator. */
  method CompareHalf(numerator: BigInt, denominator: BigInt) returns (order: int)
    requires numerator.bigits != [] && numerator.Trimmed() && TopNonZero(denominator.bigits)
    requires numerator.Value() < 10 * denominator.Value()
    requires numerator.Value() == 0 ==> numerator.exp <= denominator.exp
    ensures order == Sign(2 * numerator.Value() - denominator.Value())
  {
    assert NotOverlong(numerator, denominator) by {
      if numerator.Value() > 0 { LargeIsNormal(numerator); } else { ZeroIsShort(numerator); }
    }
    order := AddCompare(numerator, numerator, denominator);
  }

  function AppendDigit(buf: seq<char>, digit: nat): (r: seq<char>)
    requires digit <= 10
    ensures r == buf + [CharOf(digit)] && Digits(r) == 10 * Digits(buf) + digit
  {
    DigitsSnoc(buf, CharOf(digit));
    buf + [CharOf(digit)]
  }

  // ---- A given number of digits ----

  /** The carry loop after rounding up a final 9: the number keeps its value, with one place more when every
      digit overflowed. */
  method PropagateCarry(digits: seq<char>) returns (buf: seq<char>, longer: bool)
    requires digits != [] && digits[|digits| - 1] == ':' && AllDigits(digits[..|digits| - 1])
    ensures |buf| == |digits| && AllDigits(buf)
    ensures Digits(digits) == if longer then 10 * Digits(buf) else Digits(buf)
  {
    buf := digits;
    var i: int := |buf| - 1;
    while i > 0 && buf[i] == ':'
      invariant 0 <= i < |buf| == |digits| && Digits(buf) == Digits(digits)
      invariant forall k :: 0 <= k < i ==> IsDigit(buf[k])
      invariant IsDigit(buf[i]) || buf[i] == ':'
      invariant forall k :: i < k < |buf| ==> buf[k] == '0'
    {
      CarryKeepsNumber(buf, i);
      buf := buf[i := '0'];
      buf := buf[i - 1 := CharOf(DigitOf(buf[i - 1]) + 1)];
      i := i - 1;
    }
    longer := buf[0] == ':';
    if longer {
      LeadingDigit(buf);
      buf := buf[0 := '1'];
      LeadingDigit(buf);
    }
  }

  /** numDigits digits of numerator / denominator, correctly rounded; longer reports the extra place of a full carry. */
  method FixedDigits(numerator: BigInt, denominator: BigInt, numDigits: nat) returns (buf: seq<char>, longer: bool)
    requires numDigits > 0 && Dividing(numerator, denominator, numerator.Value(), 0)
    requires numerator.Value() < 10 * denominator.Value()
    modifies numerator
    ensures |buf| == numDigits && AllDigits(buf)
    ensures denominator.Value() > 0
    ensures (if longer then 10 * Digits(buf) else Digits(buf))
            == RoundHalfEven(old(numerator.Value()) * Pow(10, numDigits - 1), denominator.Value())
  {
    ghost var n0, d := numerator.Value(), denominator.Value();
    buf := [];
    var i := 0;
    while i < numDigits - 1
      invariant 0 <= i <= numDigits - 1 && |buf| == i && AllDigits(buf)
      invariant Dividing(numerator, denominator, n0, i) && numerator.Value() < 10 * d
      invariant Generated(n0, i, d, Digits(buf), numerator.Value())
    {
      ghost var n := numerator.Value();
      var digit := NextDigit(numerator, denominator, n0, i);
      DigitStep(n0, i, d, Digits(buf), n, digit, numerator.Value());
      buf := AppendDigit(buf, digit);
      TimesTen(numerator, denominator, n0, i);
      i := i + 1;
    }
    buf, longer := FinalDigit(numerator, denominator, buf, n0, i);
  }

  /** The last digit, rounded half to even by the remainder. */
  method FinalDigit(numerator: BigInt, denominator: BigInt, front: seq<char>, ghost n0: nat, ghost i: nat)
    returns (buf: seq<char>, longer: bool)
    requires Dividing(numerator, denominator, n0, i) && numerator.Value() < 10 * denominator.Value()
    requires AllDigits(front)
    requires Generated(n0, i, denominator.Value(), Digits(front), numerator.Value())
    modifies numerator
    ensures |buf| == |front| + 1 && AllDigits(buf) && denominator.Value() > 0
    ensures (if longer then 10 * Digits(buf) else Digits(buf))
            == RoundHalfEven(n0 * Pow(10, i), denominator.Value())
  {
    ghost var n := numerator.Value();
    var digit := NextDigit(numerator, denominator, n0, i);
    var order := CompareHalf(numerator, denominator);
    DigitsNonNegative(front);
    LastDigit(n0, i, denominator.Value(), Digits(front), n, digit, numerator.Value());
    longer := false;
    if order > 0 || (order == 0 && digit % 2 != 0) {
      buf := AppendDigit(front, digit + 1);
      if digit == 9 {
        assert buf[..|buf| - 1] == front;
        buf, longer := PropagateCarry(buf);
      }
    } else {
      buf := AppendDigit(front, digit);
    }
  }

  /** The first i digits of n0 / d, as a number, and ten times the remainder. */
  ghost predicate Generated(n0: nat, i: nat, d: nat, digits: int, scaled: nat) {
    n0 * Pow(10, i) == 10 * digits * d + scaled
  }

  lemma DigitStep(n0: nat, i: nat, d: nat, digits: int, scaled: nat, digit: nat, rem: nat)
    requires Generated(n0, i, d, digits, scaled) && scaled == digit * d + rem
    ensures Generated(n0, i + 1, d, 10 * digits + digit, 10 * rem)
    ensures n0 * Pow(10, i) == (10 * digits + digit) * d + rem
  {
    assert n0 * Pow(10, i + 1) == 10 * (n0 * Pow(10, i));
    assert (10 * digits + digit) * d == 10 * digits * d + digit * d;
  }

  lemma LastDigit(n0: nat, i: nat, d: nat, digits: nat, scaled: nat, digit: nat, rem: nat)
    requires Generated(n0, i, d, digits, scaled) && scaled == digit * d + rem && rem < d
    ensures RoundHalfEven(n0 * Pow(10, i), d)
            == 10 * digits + digit + (if 2 * rem > d || (2 * rem == d && digit % 2 != 0) then 1 else 0)
  {
    var q: nat := 10 * digits + digit;
    DigitStep(n0, i, d, digits, scaled, digit, rem);
    SameParity(digits, digit);
    RoundByRemainder(n0 * Pow(10, i), d, q, rem);
  }

  /** With no digits asked for, the number rounds to 0 or 1 unit of the next place. */
  method NoDigits(numerator: BigInt, denominator: BigInt) returns (buf: seq<char>)
    requires Dividing(numerator, denominator, numerator.Value(), 0)
    requires numerator.Value() < 10 * denominator.Value()
    requires numerator.Value() > 0
    modifies denominator
    ensures |buf| == 1 && AllDigits(buf)
    ensures Digits(buf) == RoundHalfEven(numerator.Value(), 10 * old(denominator.Value()))
  {
    denominator.MultiplyWord(10);
    var order := CompareHalf(numerator, denominator);
    RoundByRemainder(numerator.Value(), denominator.Value(), 0, numerator.Value());
    buf := [if order > 0 then '1' else '0'];
    assert buf[..0] == [];
  }

  // ---- The shortest digits ----

  /** The lower end is held: the numerator keeps its exponent when it is aligned with the denominator. */
  ghost predicate Held(lower: BigInt, denominator: BigInt)
    reads lower, denominator
  {
    lower.exp <= denominator.exp
  }

  /** The numerator has the exponent of lower until the first non-zero digit, and for good if the end is held. */
  ghost predicate Aligned(numerator: BigInt, denominator: BigInt, lower: BigInt, digits: int)
    reads numerator, denominator, lower
  {
    numerator.exp == if digits > 0 && !Held(lower, denominator) then denominator.exp else lower.exp
  }

  /** The state between two turns of the loop: k digits made, and what is known of shorter numbers. */
  ghost predicate Searching(n0: nat, d: nat, l0: nat, u0: nat, even: bool, held: bool, k: nat, digits: int,
                            n: nat, l: nat, u: nat)
  {
    && Generated(n0, k, d, digits, n) && n < 10 * d && digits >= 0 && (k == 0 ==> digits == 0)
    && l == l0 * Pow(10, k) && u == u0 * Pow(10, k) && 0 < l0 < n0 && u0 > 0
    && (Fits(n0, u0, d, even) || k > 0 ==> Fits(n, u, d, even))
    && NoneSoFar(n0, d, l0, u0, even, held, k)
    && (k > 0 ==> !Overflow(n0, d, l0, u0, even, held))
  }

  /** The search ends with this digit after k digits; ten is the overflow character. */
  ghost predicate Ended(n0: nat, d: nat, l0: nat, u0: nat, even: bool, held: bool, k: nat, digits: int, digit: nat) {
    && Shortest(n0, d, l0, u0, even, k + 1, 10 * digits + digit)
    && (Exact(n0, d, l0, u0, even, k + 1, 10 * digits + digit) <==> !Misses(n0, d, l0, u0, even, held))
    && digit <= 10 && (digit == 10 ==> k == 0) && (digit == 10 <==> Overflow(n0, d, l0, u0, even, held))
  }

  /** One turn up to the decision: a digit, and whether it ends the search (then it is already rounded). */
  method DigitOrEnd(numerator: BigInt, denominator: BigInt, lower: BigInt, upper: BigInt, even: bool,
                    ghost n0: nat, ghost l0: nat, ghost u0: nat, ghost k: nat, ghost digits: int)
    returns (end: bool, digit: nat)
    requires Dividing(numerator, denominator, n0, k) && lower != numerator && upper != numerator
    requires TopNonZero(lower.bigits) && TopNonZero(upper.bigits) && Aligned(numerator, denominator, lower, digits)
    requires Searching(n0, denominator.Value(), l0, u0, even, Held(lower, denominator), k, digits,
                       numerator.Value(), lower.Value(), upper.Value())
    modifies numerator
    ensures Dividing(numerator, denominator, n0, k)
    ensures end ==> Ended(n0, denominator.Value(), l0, u0, even, Held(lower, denominator), k, digits, digit)
    ensures !end ==> digit <= 9 && lower.Value() < denominator.Value()
    ensures !end ==> Aligned(numerator, denominator, lower, 10 * digits + digit)
    ensures !end ==> Searching(n0, denominator.Value(), l0, u0, even, Held(lower, denominator), k + 1,
                               10 * digits + digit, 10 * numerator.Value(), 10 * lower.Value(), 10 * upper.Value())
  {
    ghost var n, d, l, u := numerator.Value(), denominator.Value(), lower.Value(), upper.Value();
    ghost var held := Held(lower, denominator);
    digit := NextDigit(numerator, denominator, n0, k);
    ghost var r := numerator.Value();
    var low := IsLow(numerator, lower, even);
    EqualOnlyIfHeld(n0, d, l0, u0, even, held, k, digits, n, l, u, digit, r);
    var high := IsHigh(numerator, upper, denominator, even);
    end := low || high;
    if end {
      var up := false;
      if !low {
        up := true;
      } else if high {
        var result := CompareHalf(numerator, denominator);
        if result > 0 || (result == 0 && digit % 2 != 0) { up := true; }
      }
      SearchEnds(n0, d, l0, u0, even, held, k, digits, n, l, u, digit, r, low, high, up);
      if up { digit := digit + 1; }
    } else {
      SearchGoesOn(n0, d, l0, u0, even, held, k, digits, n, l, u, digit, r);
    }
  }

  /** Before the first non-zero digit the remainder is still the whole numerator, which is above lower. */
  lemma EqualOnlyIfHeld(n0: nat, d: nat, l0: nat, u0: nat, even: bool, held: bool, k: nat, digits: int,
                        n: nat, l: nat, u: nat, digit: nat, r: nat)
    requires Searching(n0, d, l0, u0, even, held, k, digits, n, l, u) && n == digit * d + r
    ensures r == l ==> 10 * digits + digit > 0
  {
    if 10 * digits + digit == 0 {
      PowPositive(10, k);
      MulStrict(l0, n0, Pow(10, k));
    }
  }

  lemma SearchEnds(n0: nat, d: nat, l0: nat, u0: nat, even: bool, held: bool, k: nat, digits: int,
                   n: nat, l: nat, u: nat, digit: nat, r: nat, low: bool, high: bool, up: bool)
    requires Searching(n0, d, l0, u0, even, held, k, digits, n, l, u) && n == digit * d + r && r < d && digit <= 9
    requires LowFlag(r, l, even, held, low) && HighFlag(r, u, d, even, high) && (low || high)
    requires UpFlag(r, d, digit, low, high, up)
    ensures Ended(n0, d, l0, u0, even, held, k, digits, if up then digit + 1 else digit)
  {
    DigitStep(n0, k, d, digits, n, digit, r);
    SameParity(digits, digit);
    TurnEnds(n0, d, l0, u0, even, held, k, 10 * digits + digit, r, low, high, up);
    if k == 0 { FirstNine(n0, d, l0, u0, even, held, digit, r, low, high); }
  }

  lemma SameParity(digits: int, digit: int)
    ensures (10 * digits + digit) % 2 == digit % 2
  {}

  /** The first digit overflows exactly when it is 9, the upper end is reached and it is rounded up. */
  lemma FirstNine(n0: nat, d: nat, l0: nat, u0: nat, even: bool, held: bool, digit: nat, r: nat, low: bool, high: bool)
    requires n0 == digit * d + r && r < d && digit <= 9
    requires LowFlag(r, l0, even, held, low) && HighFlag(r, u0, d, even, high)
    ensures Overflow(n0, d, l0, u0, even, held) <==> digit == 9 && high && (!low || 2 * r >= d)
  {
    if digit < 9 { MulMonotone(digit, 8, d); }
  }

  lemma SearchGoesOn(n0: nat, d: nat, l0: nat, u0: nat, even: bool, held: bool, k: nat, digits: int,
                     n: nat, l: nat, u: nat, digit: nat, r: nat)
    requires Searching(n0, d, l0, u0, even, held, k, digits, n, l, u) && n == digit * d + r && r < d && digit <= 9
    requires LowFlag(r, l, even, held, false) && HighFlag(r, u, d, even, false)
    ensures l < d && Searching(n0, d, l0, u0, even, held, k + 1, 10 * digits + digit, 10 * r, 10 * l, 10 * u)
  {
    DigitStep(n0, k, d, digits, n, digit, r);
    TurnPasses(n0, d, l0, u0, even, held, k, 10 * digits + digit, r);
    TenfoldBound(l0, k); TenfoldBound(u0, k);
    ScaledPositive(u0, k);
    if k == 0 { FirstNine(n0, d, l0, u0, even, held, digit, r, false, false); }
  }

  method ShortestDigits(numerator: BigInt, denominator: BigInt, lower: BigInt, upperStore: BigInt?, even: bool)
    returns (buf: seq<char>)
    requires Dividing(numerator, denominator, numerator.Value(), 0)
    requires lower.Value() < numerator.Value() < 10 * denominator.Value()
    requires lower != numerator && lower != denominator && TopNonZero(lower.bigits) && numerator.exp == lower.exp
    requires upperStore != null ==>
      upperStore != numerator && upperStore != denominator && upperStore != lower && TopNonZero(upperStore.bigits)
    modifies numerator, lower, upperStore
    ensures ShortestOf(old(numerator.Value()), denominator.Value(), old(lower.Value()),
                       old(if upperStore == null then lower.Value() else upperStore.Value()), even,
                       old(Held(lower, denominator)), buf)
  {
    var upper := if upperStore == null then lower else upperStore;
    buf := SearchShortest(numerator, denominator, lower, upper, even);
  }

  /** The digits are a shortest number; they are the number wanted exactly when that is not missed; and the overflow
      character is written, alone, exactly when the first digit overflows. */
  ghost predicate ShortestOf(n0: nat, d: nat, l0: nat, u0: nat, even: bool, held: bool, buf: seq<char>) {
    && Shortest(n0, d, l0, u0, even, |buf|, Digits(buf))
    && (Exact(n0, d, l0, u0, even, |buf|, Digits(buf)) <==> !Misses(n0, d, l0, u0, even, held))
    && (if Overflow(n0, d, l0, u0, even, held) then buf == [':'] else AllDigits(buf))
  }

  /** The loop; upper may be lower itself. */
  method SearchShortest(numerator: BigInt, denominator: BigInt, lower: BigInt, upper: BigInt, even: bool)
    returns (buf: seq<char>)
    requires Dividing(numerator, denominator, numerator.Value(), 0)
    requires lower.Value() < numerator.Value() < 10 * denominator.Value()
    requires lower != numerator && lower != denominator && TopNonZero(lower.bigits) && numerator.exp == lower.exp
    requires upper != numerator && upper != denominator && TopNonZero(upper.bigits)
    modifies numerator, lower, upper
    ensures ShortestOf(old(numerator.Value()), denominator.Value(), old(lower.Value()), old(upper.Value()), even,
                       old(Held(lower, denominator)), buf)
  {
    ghost var n0, d, l0, u0 := numerator.Value(), denominator.Value(), lower.Value(), upper.Value();
    ghost var k, held := 0, Held(lower, denominator);
    buf := [];
    ValueLowerBound(lower.bigits, lower.exp); ValueLowerBound(upper.bigits, upper.exp);
    SearchStarts(n0, d, l0, u0, even, held);
    while true
      invariant |buf| == k && AllDigits(buf)
      invariant TopNonZero(lower.bigits) && TopNonZero(upper.bigits) && Held(lower, denominator) == held
      invariant Aligned(numerator, denominator, lower, Digits(buf))
      invariant Dividing(numerator, denominator, n0, k) && denominator.Value() == d
      invariant Searching(n0, d, l0, u0, even, held, k, Digits(buf),
                          numerator.Value(), lower.Value(), upper.Value())
      decreases d - lower.Value()
    {
      var end, digit := DigitOrEnd(numerator, denominator, lower, upper, even, n0, l0, u0, k, Digits(buf));
      if end { LastOfShortest(n0, d, l0, u0, even, held, buf, digit); }
      buf := AppendDigit(buf, digit);
      if end { return; }
      AllTimesTen(numerator, denominator, lower, upper, n0, k);
      k := k + 1;
    }
  }

  lemma SearchStarts(n0: nat, d: nat, l0: nat, u0: nat, even: bool, held: bool)
    requires 0 < l0 < n0 < 10 * d && u0 > 0
    ensures Searching(n0, d, l0, u0, even, held, 0, 0, n0, l0, u0)
  {
    assert Pow(10, 0) == 1;
  }

  lemma LastOfShortest(n0: nat, d: nat, l0: nat, u0: nat, even: bool, held: bool, front: seq<char>, digit: nat)
    requires AllDigits(front) && Ended(n0, d, l0, u0, even, held, |front|, Digits(front), digit)
    ensures ShortestOf(n0, d, l0, u0, even, held, AppendDigit(front, digit))
  {
    AppendedIsDigits(front, digit);
    var buf := AppendDigit(front, digit);
    assert |buf| == |front| + 1 && Digits(buf) == 10 * Digits(front) + digit;
  }

  lemma AppendedIsDigits(front: seq<char>, digit: nat)
    requires AllDigits(front) && digit <= 10
    ensures if digit <= 9 then AllDigits(AppendDigit(front, digit))
            else front == [] ==> AppendDigit(front, digit) == [':']
  {
    var c := CharOf(digit);
    assert digit <= 9 ==> IsDigit(c);
    assert digit == 10 ==> c == ':';
  }

  /** The scaling of the next turn; upper may be lower itself. */
  method AllTimesTen(numerator: BigInt, denominator: BigInt, lower: BigInt, upper: BigInt, ghost n0: nat, ghost k: nat)
    requires Dividing(numerator, denominator, n0, k)
    requires numerator != lower && numerator != upper && denominator != lower && denominator != upper
    requires TopNonZero(lower.bigits) && TopNonZero(upper.bigits)
    modifies numerator, lower`bigits, upper`bigits
    ensures Dividing(numerator, denominator, n0, k + 1) && denominator.Value() == old(denominator.Value())
    ensures numerator.Value() == 10 * old(numerator.Value()) && numerator.exp == old(numerator.exp)
    ensures lower.Value() == 10 * old(lower.Value()) && TopNonZero(lower.bigits)
    ensures upper.Value() == 10 * old(upper.Value()) && TopNonZero(upper.bigits)
  {
    TimesTen(numerator, denominator, n0, k);
    lower.MultiplyWord(10);
    if upper != lower { upper.MultiplyWord(10); }
  }

  /** `compare(numerator, lower) - even < 0`. A remainder equal to lower but held with a smaller exponent compares
      as larger, so the closed end is seen only when the exponents agree. */
  method IsLow(numerator: BigInt, lower: BigInt, even: bool) returns (low: bool)
    requires numerator.bigits != [] && numerator.Trimmed() && TopNonZero(lower.bigits)
    requires numerator.exp <= lower.exp
    ensures LowFlag(numerator.Value(), lower.Value(), even, numerator.exp == lower.exp, low)
  {
    assert NotOverlong(numerator, lower) by {
      if numerator.Value() > 0 { LargeIsNormal(numerator); } else { ZeroIsShort(numerator); }
    }
    EqualValues(numerator, lower);
    CompareAtLeast(numerator, lower);
    var order := Compare(numerator, lower);
    low := order - (if even then 1 else 0) < 0;
  }

  method IsHigh(numerator: BigInt, upper: BigInt, denominator: BigInt, even: bool) returns (high: bool)
    requires numerator.bigits != [] && numerator.Trimmed()
    requires TopNonZero(upper.bigits) && TopNonZero(denominator.bigits)
    requires numerator.Value() == 0 ==> numerator.exp <= denominator.exp
    ensures HighFlag(numerator.Value(), upper.Value(), denominator.Value(), even, high)
  {
    assert NotOverlong(numerator, denominator) by {
      if numerator.Value() > 0 { LargeIsNormal(numerator); } else { ZeroIsShort(numerator); }
    }
    var order := AddCompare(numerator, upper, denominator);
    high := order + (if even then 1 else 0) > 0;
  }
}
