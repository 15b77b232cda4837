/** `bigint`: arbitrary-precision integers updated in place. */
module BigInts {
  import opened Words
  import opened Bigits
  import opened Convolution
  import opened Accumulators

  class BigInt {
    var bigits: seq<U32>  // least significant first
    var exp: nat          // weight of bigits[0], in bigits

    ghost function Value(): nat
      reads this
    {
      ValueOf(bigits, exp)
    }

    /** No leading zero bigit, except that zero is stored as one bigit. */
    ghost predicate Trimmed()
      reads this
    {
      |bigits| == 1 || TopNonZero(bigits)
    }

    function NumBigits(): nat
      reads this
    {
      |bigits| + exp
    }

    constructor ()
      ensures exp == 0 && bigits == []
    {
      bigits, exp := [], 0;
    }

    // ---- Assignment ----

    method Assign(other: BigInt)
      modifies this
      ensures bigits == old(other.bigits) && exp == old(other.exp)
    {
      bigits, exp := other.bigits, other.exp;
    }

    method AssignWord(n0: U64)
      modifies this
      ensures Value() == n0 && exp == 0 && Trimmed() && |bigits| <= 2
      ensures n0 > 0 ==> TopNonZero(bigits)
    {
      var n := n0;
      bigits, exp := [n % 0x1_0000_0000], 0;
      n := n / 0x1_0000_0000;
      ValSnoc([], bigits[0]);
      assert [] + [bigits[0]] == bigits;
      while n != 0
        invariant |bigits| >= 1 && (n0 != 0 && n == 0 ==> bigits[|bigits| - 1] != 0)
        invariant |bigits| == 1 ==> n == n0 / 0x1_0000_0000
        invariant |bigits| >= 2 ==> n == 0 && |bigits| == 2 && bigits[1] != 0
        invariant exp == 0 && Val(bigits) + P(|bigits|) * n == n0
        decreases n
      {
        ValSnoc(bigits, n % 0x1_0000_0000);
        SplitWord(P(|bigits|), n / 0x1_0000_0000, n % 0x1_0000_0000);
        bigits := bigits + [n % 0x1_0000_0000];
        n := n / 0x1_0000_0000;
      }
    }

    // ---- Multiplication ----

    /** A carry left at the end becomes the new top bigit. */
    method StoreCarry(carry: U32, ghost total: nat)
      requires Val(bigits) + P(|bigits|) * carry == total
      modifies this`bigits
      ensures Val(bigits) == total
      ensures bigits == if carry != 0 then old(bigits) + [carry] else old(bigits)
    {
      if carry != 0 {
        PushCarry(bigits, carry);
        bigits := bigits + [carry];
      }
    }

    method MultiplyWord(value: U32)
      modifies this`bigits
      ensures Value() == old(Value()) * value
      ensures value > 0 && old(Trimmed()) ==> Trimmed()
      ensures value > 0 && old(TopNonZero(bigits)) ==> TopNonZero(bigits)
    {
      ghost var was := bigits;
      var carry: U32 := 0;
      var i := 0;
      ScaleStart(was, value);
      while i < |bigits|
        invariant Scaled(bigits, was, i, value, carry)
        invariant carry == 0 && value > 0 && i > 0 && was[i - 1] != 0 ==> bigits[i - 1] != 0
      {
        var result: U64 := WideProduct(bigits[i], value, carry);
        ScaleNext(bigits, was, i, value, carry, result);
        StoredNonZero(was[i], value, carry, result);
        bigits := bigits[i := result % 0x1_0000_0000];
        carry := result / 0x1_0000_0000;
        i := i + 1;
      }
      ScaleEnd(bigits, was, value, carry);
      StoreCarry(carry, value * Val(was));
      ScaleValue(P(exp), Val(bigits), Val(was), value);
    }

    method MultiplyDouble(value: U64)
      modifies this`bigits
      ensures Value() == old(Value()) * value
      ensures value > 0 && old(Trimmed()) ==> Trimmed()
      ensures value > 0 && old(TopNonZero(bigits)) ==> TopNonZero(bigits)
    {
      ghost var was := bigits;
      var lower, upper := value % 0x1_0000_0000, value / 0x1_0000_0000;
      var carry: U64 := 0;
      var i := 0;
      ScaleStart(was, value);
      while i < |bigits|
        invariant Scaled(bigits, was, i, value, carry)
        invariant carry == 0 && value > 0 && i > 0 && was[i - 1] != 0 ==> bigits[i - 1] != 0
      {
        ghost var total := TotalProduct(was[i], value, carry);
        ScaleNext(bigits, was, i, value, carry, total);
        StoredNonZero(was[i], value, carry, total);
        var c := DoubleStep(bigits[i], lower, upper, carry, value, total);
        bigits := bigits[i := c.0];
        carry := c.1;
        i := i + 1;
      }
      ScaleEnd(bigits, was, value, carry);
      PushCarries(carry);
      ScaleValue(P(exp), Val(bigits), Val(was), value);
    }

    /** The loop that pushes what is left of the carry. */
    method PushCarries(rest: U64)
      modifies this`bigits
      ensures Val(bigits) == Val(old(bigits)) + P(|old(bigits)|) * rest
      ensures if rest == 0 then bigits == old(bigits) else |bigits| > |old(bigits)| && TopNonZero(bigits)
    {
      var carry: U64 := rest;
      while carry != 0
        invariant carry == rest ==> bigits == old(bigits)
        invariant carry == 0 && rest != 0 ==> |bigits| > |old(bigits)| && TopNonZero(bigits)
        invariant |bigits| >= |old(bigits)| && carry <= rest
        invariant Val(bigits) + P(|bigits|) * carry == Val(old(bigits)) + P(|old(bigits)|) * rest
      {
        PushCarry(bigits, carry);
        bigits := bigits + [carry % 0x1_0000_0000];
        carry := carry / 0x1_0000_0000;
      }
    }

    /** `operator<<=`. */
    method ShiftLeft(shift: nat)
      modifies this
      ensures Value() == old(Value()) * Pow(2, shift)
      ensures exp == old(exp) + shift / 32
      ensures old(Trimmed()) ==> Trimmed()
      ensures old(TopNonZero(bigits)) ==> TopNonZero(bigits)
    {
      ghost var was := Val(bigits);
      exp := exp + shift / 32;
      if shift % 32 == 0 {
        ShiftValue(was, was, old(exp), shift);
        return;
      }
      ShiftBits(shift % 32);
      ShiftValue(Val(bigits), was, old(exp), shift);
    }

    /** The part of the shift that stays within a word. */
    method ShiftBits(s: nat)
      requires 0 < s < 32
      modifies this`bigits
      ensures Val(bigits) == Pow(2, s) * Val(old(bigits))
      ensures old(Trimmed()) ==> Trimmed()
      ensures old(TopNonZero(bigits)) ==> TopNonZero(bigits)
    {
      ghost var was := bigits;
      var two, inv := Pow(2, s), Pow(2, 32 - s);
      assert two * inv == 0x1_0000_0000 by { PowAdd(2, s, 32 - s); WordBits(); }
      PowPositive(2, s);
      var carry: U32 := 0;
      var i := 0;
      ScaleStart(was, two);
      while i < |bigits|
        invariant Scaled(bigits, was, i, two, carry)
        invariant carry < two
        invariant carry == 0 && i > 0 && was[i - 1] != 0 ==> bigits[i - 1] != 0
      {
        ghost var result := TotalProduct(was[i], two, carry);
        ScaleNext(bigits, was, i, two, carry, result);
        StoredNonZero(was[i], two, carry, result);
        var c := ShiftWord(bigits[i], carry, two, inv, result);
        bigits := bigits[i := c.0];
        carry := c.1;
        i := i + 1;
      }
      ScaleEnd(bigits, was, two, carry);
      StoreCarry(carry, two * Val(was));
    }

    // ---- Subtraction and division ----

    /** `subtract_bigits`: one bigit, through a 64-bit difference that wraps. */
    method SubtractBigits(index: nat, other: U32, borrow: U32) returns (owed: U32)
      requires index < |bigits| && borrow <= 1
      modifies this`bigits
      ensures owed <= 1 && |bigits| == |old(bigits)| && bigits == old(bigits)[index := bigits[index]]
      ensures bigits[index] - 0x1_0000_0000 * owed == old(bigits[index]) - other - borrow
    {
      var result: U64 := (bigits[index] - other - borrow) % 0x1_0000_0000_0000_0000;
      bigits := bigits[index := result % 0x1_0000_0000];
      owed := result / 0x8000_0000_0000_0000;
    }

    method RemoveLeadingZeros()
      requires bigits != []
      modifies this`bigits
      ensures Trimmed() && Val(bigits) == Val(old(bigits)) && 0 < |bigits| <= |old(bigits)|
    {
      var top: int := |bigits| - 1;
      while top > 0 && bigits[top] == 0
        invariant 0 <= top < |bigits| && forall i :: top < i < |bigits| ==> bigits[i] == 0
      {
        top := top - 1;
      }
      ValTrim(bigits, top + 1);
      bigits := bigits[..top + 1];
    }

    /** The borrow left after subtracting other is absorbed by the very next bigit: there is no such borrow, or
        that bigit is non-zero. */
    ghost predicate BorrowSettles(other: BigInt)
      requires exp <= other.exp && other.NumBigits() <= NumBigits()
      reads this, other
    {
      var offset := other.exp - exp;
      ghost var i := offset + |other.bigits|;
      Val(bigits[..i]) >= Subtrahend(other.bigits, offset) || (i < |bigits| && bigits[i] != 0)
    }

    /** `subtract_aligned`. The borrow loop never advances its index, so the difference is right exactly when
        the next bigit settles the borrow. */
    method SubtractAligned(other: BigInt)
      requires this != other && bigits != []
      requires exp <= other.exp && other.NumBigits() <= NumBigits() && Value() >= other.Value()
      modifies this`bigits
      ensures Value() == old(Value()) - other.Value() <==> old(BorrowSettles(other))
      ensures Trimmed() && 0 < |bigits| <= |old(bigits)|
    {
      ghost var was, offset := bigits, other.exp - exp;
      OffsetValue(other, exp);
      CancelWeight(P(exp), Val(was), Subtrahend(other.bigits, offset));
      SubtractValues(other);
      WeighDifference(P(exp), Val(bigits), Val(was), Subtrahend(other.bigits, offset));
    }

    /** The same without the weight of the exponent. */
    method SubtractValues(other: BigInt)
      requires this != other && bigits != [] && exp <= other.exp && other.NumBigits() <= NumBigits()
      requires Val(bigits) >= Subtrahend(other.bigits, other.exp - exp)
      modifies this`bigits
      ensures Val(bigits) == Val(old(bigits)) - Subtrahend(other.bigits, other.exp - exp) <==> old(BorrowSettles(other))
      ensures Trimmed() && 0 < |bigits| <= |old(bigits)|
    {
      ghost var was, offset := bigits, other.exp - exp;
      var borrow := SubtractColumns(other);
      ghost var mid := bigits;
      if borrow == 1 { BorrowFits(mid, was, other.bigits, offset); }
      PropagateBorrow(other.exp - exp + |other.bigits|, borrow);
      Settled(bigits, mid, was, other.bigits, offset, borrow);
      RemoveLeadingZeros();
    }

    /** The loop over the subtrahend's bigits. */
    method SubtractColumns(other: BigInt) returns (borrow: U32)
      requires this != other && exp <= other.exp && other.NumBigits() <= NumBigits()
      modifies this`bigits
      ensures borrow <= 1
      ensures Subtracted(bigits, old(bigits), other.bigits, other.exp - exp, |other.bigits|, borrow)
    {
      ghost var was, offset := bigits, other.exp - exp;
      borrow := 0;
      var i, j := other.exp - exp, 0;
      SubtractStart(was, other.bigits, offset);
      while j < |other.bigits|
        invariant j <= |other.bigits| && i == offset + j && borrow <= 1
        invariant Subtracted(bigits, was, other.bigits, offset, j, borrow)
      {
        ghost var now, before := bigits, borrow;
        assert now[i] == now[i..][0] == was[i..][0] == was[i];
        borrow := SubtractBigits(i, other.bigits[j], borrow);
        SubtractNext(now, was, other.bigits, offset, j, before, bigits[i], borrow);
        i, j := i + 1, j + 1;
      }
    }

    /** The loop `while (borrow > 0)`, which stays at index i. */
    method PropagateBorrow(i: nat, owed: U32)
      requires owed <= 1 && (owed == 1 ==> i < |bigits|)
      modifies this`bigits
      ensures bigits == if owed == 0 then old(bigits) else old(bigits)[i := AfterBorrow(old(bigits)[i])]
    {
      ghost var mid := bigits;
      var borrow: U32 := owed;
      while borrow > 0
        invariant borrow <= owed && |bigits| == |mid|
        invariant borrow == 1 ==> bigits == mid || (mid[i] == 0 && bigits == mid[i := 0xffff_ffff])
        invariant borrow == 0 && owed == 1 ==> bigits == mid[i := AfterBorrow(mid[i])]
        invariant owed == 0 ==> bigits == mid
        decreases if borrow == 0 then 0 else if bigits[i] == 0 then 2 else 1
      {
        borrow := SubtractBigits(i, 0, borrow);
      }
    }

    /** `align`: moves the bigits up, from the top down because the regions overlap, and zeroes the gap. */
    method Align(other: BigInt)
      requires this != other
      modifies this
      ensures exp == if old(exp) > other.exp then other.exp else old(exp)
      ensures bigits == Zeros(old(exp) - exp) + old(bigits)
      ensures Value() == old(Value()) && NumBigits() == old(NumBigits())
    {
      var expDifference: int := exp - other.exp;
      if expDifference <= 0 {
        assert Zeros(0) + bigits == bigits;
        return;
      }
      MoveUp(expDifference);
      exp := exp - expDifference;
      ValShifted(old(bigits), expDifference);
      PAdd(exp, expDifference);
      Scale(P(exp), P(expDifference), Val(old(bigits)));
    }

    method MoveUp(distance: nat)
      modifies this`bigits
      ensures bigits == Zeros(distance) + old(bigits)
    {
      ghost var was := bigits;
      var numBigits := |bigits|;
      bigits := Resized(bigits, numBigits + distance);
      var i: int, j: int := numBigits - 1, numBigits - 1 + distance;
      while i >= 0
        invariant -1 <= i < |was| && j == i + distance && |bigits| == |was| + distance
        invariant forall k :: 0 <= k <= i ==> bigits[k] == was[k]
        invariant forall k :: j < k < |bigits| ==> bigits[k] == was[k - distance]
      {
        bigits := bigits[j := bigits[i]];
        i, j := i - 1, j - 1;
      }
      assert bigits[distance..] == was;
      bigits := Zeros(distance) + bigits[distance..];
    }

    /** `divmod_assign`: leaves the remainder in this and returns the quotient. The remainder is below the divisor
        unless the dividend equals the divisor and is held with a larger exponent. The quotient has to fit an `int`,
        so the dividend is at most one bigit longer than the divisor. */
    method DivModAssign(divisor: BigInt) returns (quotient: nat)
      requires this != divisor && TopNonZero(divisor.bigits)
      requires bigits != [] && Trimmed() && NotOverlong(this, divisor)
      requires Value() < 0x8000_0000 * divisor.Value()
      modifies this
      ensures quotient < 0x8000_0000
      ensures old(Value()) == quotient * divisor.Value() + Value()
      ensures Value() < divisor.Value() || (quotient == 0 && old(Value()) == divisor.Value() && old(exp) > divisor.exp)
      ensures old(Value()) == divisor.Value() && old(exp) > divisor.exp ==> quotient == 0
      ensures bigits != [] && Trimmed() && NumBigits() <= old(NumBigits())
      ensures exp == if quotient > 0 && old(exp) > divisor.exp then divisor.exp else old(exp)
    {
      ghost var total, d := Value(), divisor.Value();
      EqualValues(this, divisor);
      var order := Compare(this, divisor);
      if order < 0 { return 0; }
      LargeIsNormal(this);
      NotTwoLonger(this, divisor);
      Align(divisor);
      quotient := ReduceBy(divisor);
      QuotientBound(total, quotient, d);
    }

    /** The subtraction loop: it runs at least once. */
    method ReduceBy(divisor: BigInt) returns (quotient: nat)
      requires this != divisor && TopNonZero(divisor.bigits) && bigits != [] && Trimmed()
      requires Value() >= divisor.Value() && exp <= divisor.exp && NumBigits() <= divisor.NumBigits() + 1
      modifies this`bigits
      ensures quotient > 0 && old(Value()) == quotient * divisor.Value() + Value() && Value() < divisor.Value()
      ensures bigits != [] && Trimmed() && NumBigits() <= old(NumBigits())
    {
      ghost var total, d, taken := Value(), divisor.Value(), 0;
      ValueLowerBound(divisor.bigits, divisor.exp);
      quotient := 0;
      var order := 1;
      while order >= 0
        invariant bigits != [] && Trimmed() && NumBigits() <= old(NumBigits())
        invariant order >= 0 ==> Value() >= d
        invariant order < 0 ==> Value() < d && quotient > 0
        invariant taken == quotient * d && total == taken + Value()
        decreases if order >= 0 then Value() + 1 else 0
      {
        ReadyToSubtract(this, divisor);
        SubtractAligned(divisor);
        quotient, taken := OneMore(quotient, d, taken), taken + d;
        CompareAtLeast(this, divisor);
        order := Compare(this, divisor);
      }
    }

    // ---- Squares and powers of ten ----

    method Square()
      requires 0 < |bigits| < 0x4000_0000
      modifies this
      ensures Value() == old(Value()) * old(Value())
      ensures bigits != [] && Trimmed() && exp == 2 * old(exp)
    {
      var n, numBigits := bigits, |bigits|;
      var numResultBigits := 2 * numBigits;
      bigits := Resized([], numResultBigits);
      var sum := new Accumulator();
      StoreLowColumns(n, sum);
      StoreHighColumns(n, sum);
      NoCarryLeft(bigits, n, sum.Value());
      RemoveLeadingZeros();
      exp := exp * 2;
      SquareWeight(P(exp), P(old(exp)), Val(n), old(exp));
    }

    /** The columns below n's length: the first half of the result. */
    method StoreLowColumns(n: seq<U32>, sum: Accumulator)
      requires 0 < |n| < 0x4000_0000 && |bigits| == 2 * |n| && sum.Value() == 0
      modifies this`bigits, sum
      ensures |bigits| == 2 * |n| && sum.Value() <= |n| * 0xffff_ffff
      ensures Val(bigits[..|n|]) + P(|n|) * sum.Value() == Columns(n, n, |n|)
    {
      assert bigits[..0] == [];
      var index := 0;
      while index < |n|
        invariant index <= |n| && |bigits| == 2 * |n| && sum.Value() <= |n| * 0xffff_ffff
        invariant Val(bigits[..index]) + P(index) * sum.Value() == Columns(n, n, index)
      {
        ghost var carry := sum.Value();
        AddLowColumn(n, index, sum);
        StoreColumn(bigits, n, index, carry, sum.Value());
        bigits := bigits[index := sum.Word()];
        sum.ShiftWord();
        index := index + 1;
      }
    }

    /** The same for the top half. */
    method StoreHighColumns(n: seq<U32>, sum: Accumulator)
      requires 0 < |n| < 0x4000_0000 && |bigits| == 2 * |n| && sum.Value() <= |n| * 0xffff_ffff
      requires Val(bigits[..|n|]) + P(|n|) * sum.Value() == Columns(n, n, |n|)
      modifies this`bigits, sum
      ensures |bigits| == 2 * |n| && Val(bigits) + P(2 * |n|) * sum.Value() == Columns(n, n, 2 * |n|)
    {
      var index := |n|;
      while index < 2 * |n|
        invariant |n| <= index <= 2 * |n| == |bigits| && sum.Value() <= |n| * 0xffff_ffff
        invariant Val(bigits[..index]) + P(index) * sum.Value() == Columns(n, n, index)
      {
        ghost var carry := sum.Value();
        AddHighColumn(n, index, sum);
        StoreColumn(bigits, n, index, carry, sum.Value());
        bigits := bigits[index := sum.Word()];
        sum.ShiftWord();
        index := index + 1;
      }
      assert bigits[..index] == bigits;
    }

    method AssignPow10(exp10: nat)
      requires exp10 < 0x4000_0000
      modifies this
      ensures Value() == Pow(10, exp10) && exp == exp10 / 32 && TopNonZero(bigits)
    {
      if exp10 == 0 {
        AssignWord(1);
        return;
      }
      AssignPow5(exp10);
      ShiftLeft(exp10);
      PowProduct(5, 2, exp10);
    }

    /** Repeated squaring along the bits of the exponent, from the second highest down. */
    method AssignPow5(exp10: nat)
      requires 0 < exp10 < 0x4000_0000
      modifies this
      ensures Value() == Pow(5, exp10) && exp == 0 && TopNonZero(bigits)
    {
      var bitmask, k := TopBit(exp10);
      ghost var done: nat := 1;
      AssignWord(5);
      bitmask := bitmask / 2;
      assert Pow(5, 1) == 5;
      while bitmask != 0
        invariant BitsDone(exp10, bitmask, k, done)
        invariant Value() == Pow(5, done) && exp == 0 && TopNonZero(bigits)
        decreases k
      {
        NextBit(exp10, bitmask, k, done);
        PowerOfFiveIsShort(this, done);
        SquareForStep(this, done);
        if exp10 / bitmask % 2 != 0 { MultiplyWord(5); }
        done := exp10 / bitmask;
        bitmask, k := bitmask / 2, k - 1;
      }
    }
  }

  /** The highest bit of the exponent, by doubling past it. */
  method TopBit(exp10: nat) returns (bitmask: nat, ghost k: nat)
    requires exp10 > 0
    ensures bitmask == Pow(2, k) && BitsDone(exp10, bitmask / 2, k, 1)
  {
    bitmask, k := 1, 0;
    while exp10 >= bitmask
      invariant bitmask == Pow(2, k) && (k > 0 ==> Pow(2, k - 1) <= exp10)
      decreases 2 * exp10 - bitmask
    {
      bitmask, k := bitmask * 2, k + 1;
    }
    bitmask, k := bitmask / 2, k - 1;
    DivUnique(exp10, bitmask, 1, exp10 - bitmask);
  }

  /** The bits of n from position k up have been used, and the mask selects the next one. */
  ghost predicate BitsDone(n: nat, bitmask: nat, k: nat, done: nat) {
    && Pow(2, k) > 0
    && done == n / Pow(2, k)
    && bitmask == (if k == 0 then 0 else Pow(2, k - 1))
  }

  lemma NextBit(n: nat, bitmask: nat, k: nat, done: nat)
    requires BitsDone(n, bitmask, k, done) && bitmask != 0
    ensures k > 0 && n / bitmask == 2 * done + n / bitmask % 2 && done <= n
    ensures BitsDone(n, bitmask / 2, k - 1, n / bitmask)
    ensures k == 1 ==> n / bitmask == n
  {
    HalveDivisor(n, bitmask);
    MulMonotone(1, Pow(2, k), done);
  }

  /** Squaring pow(5, done) on its way to the next exponent. */
  method SquareForStep(n: BigInt, ghost done: nat)
    requires TopNonZero(n.bigits) && n.exp == 0 && |n.bigits| < 0x4000_0000 && n.Value() == Pow(5, done)
    modifies n
    ensures TopNonZero(n.bigits) && n.exp == 0 && n.Value() == Pow(5, 2 * done)
  {
    n.Square();
    PowAdd(5, done, done);
    PowPositive(5, 2 * done);
    LargeIsNormal(n);
  }

  /** The inner loop of the lower half: i upwards from 0, j downwards to 0. */
  method AddLowColumn(n: seq<U32>, index: nat, sum: Accumulator)
    requires index < |n| < 0x4000_0000 && sum.Value() <= |n| * 0xffff_ffff
    modifies sum
    ensures sum.Value() == old(sum.Value()) + Column(n, n, index)
    ensures sum.Value() <= |n| * 0xffff_ffff_0000_0000
  {
    var i, j: int := 0, index;
    assert n[0..] == n;
    ghost var rest := Column(n, n, index);
    while j >= 0
      invariant 0 <= i <= |n| && j == index - i
      invariant rest == Column(n[i..], n, j) && sum.Value() + rest == old(sum.Value()) + Column(n, n, index)
      invariant sum.Value() <= |n| * 0xffff_ffff + i * 0xffff_fffe_0000_0001
    {
      ColumnStep(n, n, j, i);
      var term: U64 := Term(n[i], n[j]);
      sum.Add(term);
      rest := rest - term;
      i, j := i + 1, j - 1;
    }
    ColumnBelowZero(n[i..], n, j);
  }

  /** The inner loop of the upper half: j downwards from the top bigit, i upwards to it. */
  method AddHighColumn(n: seq<U32>, index: nat, sum: Accumulator)
    requires |n| <= index < 2 * |n| && |n| < 0x4000_0000 && sum.Value() <= |n| * 0xffff_ffff
    modifies sum
    ensures sum.Value() == old(sum.Value()) + Column(n, n, index)
    ensures sum.Value() <= |n| * 0xffff_ffff_0000_0000
  {
    var j: int := |n| - 1;
    var i: int := index - j;
    ColumnSkip(n, n, index, i);
    ghost var start, rest := i, Column(n, n, index);
    while i < |n|
      invariant start <= i <= |n| && j == index - i
      invariant rest == Column(n[i..], n, j) && sum.Value() + rest == old(sum.Value()) + Column(n, n, index)
      invariant sum.Value() <= |n| * 0xffff_ffff + i * 0xffff_fffe_0000_0001
    {
      ColumnStep(n, n, j, i);
      var term: U64 := Term(n[i], n[j]);
      sum.Add(term);
      rest := rest - term;
      i, j := i + 1, j - 1;
    }
    assert n[i..] == [];
  }

  lemma StoreColumn(bigits: seq<U32>, n: seq<U32>, index: nat, carry: nat, sum: nat)
    requires index < |bigits| && Val(bigits[..index]) + P(index) * carry == Columns(n, n, index)
    requires sum == carry + Column(n, n, index)
    ensures var after := bigits[index := sum % 0x1_0000_0000];
            Val(after[..index + 1]) + P(index + 1) * (sum / 0x1_0000_0000) == Columns(n, n, index + 1)
  {
    var after := bigits[index := sum % 0x1_0000_0000];
    assert after[..index] == bigits[..index];
    ValPrefix(after, index);
    SplitCarry(P(index), P(index + 1), sum);
    AddColumn(P(index), carry, Column(n, n, index));
  }

  lemma AddColumn(p: int, carry: int, column: int)
    ensures p * (carry + column) == p * carry + p * column
  {}

  /** The columns are the whole square and fit into the result, so nothing is left to carry. */
  lemma NoCarryLeft(bigits: seq<U32>, n: seq<U32>, sum: nat)
    requires |bigits| == 2 * |n|
    requires Val(bigits) + P(2 * |n|) * sum == Columns(n, n, 2 * |n|)
    ensures sum == 0 && Val(bigits) == Val(n) * Val(n)
  {
    ColumnsAreProduct(n, n, 2 * |n|);
    SquareBound(n);
    SmallTotal(Val(bigits), P(2 * |n|), sum, Val(n) * Val(n));
  }

  lemma SmallTotal(low: nat, p: nat, high: nat, total: nat)
    requires low + p * high == total < p
    ensures high == 0 && low == total
  {
    if high > 0 { MulMonotone(1, high, p); }
  }

  lemma SquareWeight(p2: nat, p: nat, v: nat, exp: nat)
    requires p == P(exp) && p2 == P(exp * 2)
    ensures p2 * (v * v) == (p * v) * (p * v)
  {
    PAdd(exp, exp);
    Regroup(p, p, v, v);
    Regroup(p, v, p, v);
  }

  lemma HalveDivisor(n: nat, m: nat)
    requires m > 0
    ensures n / m == 2 * (n / (2 * m)) + n / m % 2
  {
    var q := n / m / 2;
    var r := n / m % 2;
    assert n == m * (2 * q + r) + n % m;
    DivUnique(n, 2 * m, q, m * r + n % m);
  }

  lemma {:induction false} PStrict(m: nat, n: nat)
    requires m < n
    ensures P(m) < P(n)
  {
    PPositive(m);
    PMonotone(m + 1, n);
  }

  lemma {:induction false} PowerOfFiveBelowWord(k: nat)
    ensures Pow(5, k) <= P(k)
  {
    if k == 0 {
    } else {
      PowerOfFiveBelowWord(k - 1);
    }
  }

  lemma PowerOfFiveIsShort(n: BigInt, k: nat)
    requires TopNonZero(n.bigits) && n.exp == 0 && n.Value() == Pow(5, k)
    ensures |n.bigits| <= k + 1
  {
    ValLowerBound(n.bigits);
    PowerOfFiveBelowWord(k);
    if |n.bigits| - 1 > k { PStrict(k, |n.bigits| - 1); }
  }

  function OneMore(quotient: nat, ghost d: nat, ghost taken: nat): (q: nat)
    requires taken == quotient * d
    ensures q == quotient + 1 && q * d == taken + d
  {
    quotient + 1
  }

  /** Equal non-zero numbers end at the same position. */
  lemma EqualValues(lhs: BigInt, rhs: BigInt)
    requires TopNonZero(rhs.bigits) && lhs.bigits != [] && lhs.Trimmed() && NotOverlong(lhs, rhs)
    ensures lhs.Value() == rhs.Value() ==> TopNonZero(lhs.bigits) && lhs.NumBigits() == rhs.NumBigits()
    ensures rhs.Value() > 0
  {
    ValueLowerBound(rhs.bigits, rhs.exp);
    if lhs.Value() == rhs.Value() {
      LargeIsNormal(lhs);
      if lhs.NumBigits() > rhs.NumBigits() { LongerIsLarger(lhs.bigits, lhs.exp, rhs.bigits, rhs.exp); }
      if lhs.NumBigits() < rhs.NumBigits() { LongerIsLarger(rhs.bigits, rhs.exp, lhs.bigits, lhs.exp); }
    }
  }

  /** `compare` answers "at least" except when equal values meet and the left one has the larger exponent, and that
      takes a right operand whose lowest bigit is zero. */
  lemma CompareAtLeast(lhs: BigInt, rhs: BigInt)
    requires TopNonZero(rhs.bigits) && lhs.bigits != [] && lhs.Trimmed() && NotOverlong(lhs, rhs)
    ensures CompareResult(lhs, rhs) >= 0 <==>
            lhs.Value() >= rhs.Value() && !(lhs.Value() == rhs.Value() && lhs.exp > rhs.exp)
    ensures lhs.Value() == rhs.Value() && lhs.exp > rhs.exp ==> rhs.bigits[0] == 0
  {
    EqualValues(lhs, rhs);
    if lhs.Value() == rhs.Value() && lhs.exp > rhs.exp {
      LowestIsZero(lhs, rhs);
    }
  }

  /** With equal exponents `compare` is exact. */
  lemma CompareIsExact(lhs: BigInt, rhs: BigInt)
    requires lhs.bigits != [] && lhs.Trimmed() && rhs.bigits != [] && rhs.Trimmed() && lhs.exp == rhs.exp
    ensures CompareResult(lhs, rhs) == Sign(lhs.Value() - rhs.Value())
  {
    if lhs.Value() == rhs.Value() {
      if lhs.Value() > 0 {
        LargeIsNormal(lhs); LargeIsNormal(rhs);
        EqualValues(lhs, rhs);
      } else {
        ZeroIsShort(lhs); ZeroIsShort(rhs);
      }
    }
  }

  lemma ZeroIsShort(n: BigInt)
    requires n.bigits != [] && n.Trimmed() && n.Value() == 0
    ensures |n.bigits| == 1
  {
    if TopNonZero(n.bigits) { ValueLowerBound(n.bigits, n.exp); }
  }

  lemma LowestIsZero(lhs: BigInt, rhs: BigInt)
    requires rhs.bigits != [] && lhs.Value() == rhs.Value() && lhs.exp > rhs.exp
    ensures rhs.bigits[0] == 0
  {
    OffsetValue(lhs, rhs.exp);
    CancelWeight(P(rhs.exp), Val(rhs.bigits), Subtrahend(lhs.bigits, lhs.exp - rhs.exp));
    Scale(0x1_0000_0000, P(lhs.exp - rhs.exp - 1), Val(lhs.bigits));
    FirstBigit(rhs.bigits[0], Val(rhs.bigits[1..]), P(lhs.exp - rhs.exp - 1) * Val(lhs.bigits));
  }

  lemma FirstBigit(x: U32, rest: int, y: int)
    requires x + 0x1_0000_0000 * rest == 0x1_0000_0000 * y
    ensures x == 0
  {}

  /** 2^32 held as one bigit with exponent 1 does not compare as "at least" 2^32 held as two bigits. */
  lemma CompareMissesEquality(lhs: BigInt, rhs: BigInt)
    requires lhs.bigits == [1] && lhs.exp == 1 && rhs.bigits == [0, 1] && rhs.exp == 0
    ensures lhs.Value() == rhs.Value() && CompareResult(lhs, rhs) == -1
  {
    assert [0, 1][1..] == [1] && [1][1..] == [];
    assert P(1) == 0x1_0000_0000 * P(0);
    assert Val(lhs.bigits) == 1 && Val(rhs.bigits[1..]) == 1;
  }

  /** Subtracting 1 from 2^64: the borrow meets a zero bigit, which cannot settle it. */
  lemma BorrowIsLost(minuend: BigInt, subtrahend: BigInt)
    requires minuend.bigits == [0, 0, 1] && subtrahend.bigits == [1] && minuend.exp == 0 && subtrahend.exp == 0
    ensures minuend.Value() > subtrahend.Value() && !minuend.BorrowSettles(subtrahend)
  {
    assert minuend.bigits[..1] == [0];
    assert [0, 0, 1][1..] == [0, 1] && [0, 1][1..] == [1] && [1][1..] == [] && [0][1..] == [];
    assert Val([1]) == 1 && Val([0, 1]) == 0x1_0000_0000 && Val([0]) == 0;
    assert Subtrahend([1], 0) == 1 by { PPositive(0); }
    PPositive(0);
  }

  lemma NotTwoLonger(n: BigInt, divisor: BigInt)
    requires TopNonZero(n.bigits) && TopNonZero(divisor.bigits) && n.Value() < 0x8000_0000 * divisor.Value()
    ensures n.NumBigits() <= divisor.NumBigits() + 1
  {
    if n.NumBigits() >= divisor.NumBigits() + 2 {
      LongDividend(n, divisor);
    }
  }

  lemma QuotientBound(n: nat, quotient: nat, d: nat)
    requires quotient * d <= n < 0x8000_0000 * d
    ensures quotient < 0x8000_0000
  {
    if quotient >= 0x8000_0000 { MulMonotone(0x8000_0000, quotient, d); }
  }

  /** A dividend two bigits longer than the divisor has a quotient that no 32-bit integer holds. */
  lemma LongDividend(n: BigInt, divisor: BigInt)
    requires TopNonZero(n.bigits) && TopNonZero(divisor.bigits) && n.NumBigits() >= divisor.NumBigits() + 2
    ensures n.Value() > 0x1_0000_0000 * divisor.Value()
  {
    ValueLowerBound(n.bigits, n.exp);
    ValueBound(divisor.bigits, divisor.exp);
    PMonotone(divisor.NumBigits() + 1, n.NumBigits() - 1);
  }

  lemma LargeIsNormal(n: BigInt)
    requires n.bigits != [] && n.Trimmed() && n.Value() > 0
    ensures TopNonZero(n.bigits)
  {
    if n.bigits[|n.bigits| - 1] == 0 {
      ValZeros(n.bigits);
    }
  }

  /** A dividend no smaller than the divisor, held with no larger exponent and at most one bigit longer, meets
      what `subtract_aligned` needs. */
  lemma ReadyToSubtract(n: BigInt, divisor: BigInt)
    requires TopNonZero(divisor.bigits) && n.bigits != [] && n.Trimmed()
    requires n.Value() >= divisor.Value() && n.exp <= divisor.exp && n.NumBigits() <= divisor.NumBigits() + 1
    ensures n.NumBigits() >= divisor.NumBigits() && n.BorrowSettles(divisor)
  {
    ValueLowerBound(divisor.bigits, divisor.exp);
    LargeIsNormal(n);
    if n.NumBigits() < divisor.NumBigits() { LongerIsLarger(divisor.bigits, divisor.exp, n.bigits, n.exp); }
    OffsetValue(divisor, n.exp);
    CancelWeight(P(n.exp), Val(n.bigits), P(divisor.exp - n.exp) * Val(divisor.bigits));
    if n.NumBigits() == divisor.NumBigits() {
      assert n.bigits[..divisor.NumBigits() - n.exp] == n.bigits;
    }
  }

  /** A buffer grown to n bigits; the contents of the new part are unspecified. */
  method Resized(s: seq<U32>, n: nat) returns (r: seq<U32>)
    requires |s| <= n
    ensures |r| == n && forall k :: 0 <= k < |s| ==> r[k] == s[k]
  {
    var junk: seq<U32> :| |junk| == n - |s| by { assert |Zeros(n - |s|)| == n - |s|; }
    r := s + junk;
  }

  lemma OffsetValue(other: BigInt, exp: nat)
    requires exp <= other.exp
    ensures P(exp) > 0 && other.Value() == P(exp) * (Subtrahend(other.bigits, other.exp - exp))
  {
    PPositive(exp);
    PAdd(exp, other.exp - exp);
    Scale(P(exp), P(other.exp - exp), Val(other.bigits));
  }

  lemma CancelWeight(p: nat, x: int, y: int)
    requires p > 0
    ensures p * x == p * y <==> x == y
    ensures p * x >= p * y <==> x >= y
  {
    if x < y { MulMonotone(x + 1, y, p); } else if y < x { MulMonotone(y + 1, x, p); }
  }

  lemma WeighDifference(p: nat, now: int, was: int, subtrahend: int)
    requires p > 0
    ensures p * now == p * was - p * subtrahend <==> now == was - subtrahend
  {
    CancelWeight(p, now, was - subtrahend);
    assert p * (was - subtrahend) == p * was - p * subtrahend;
  }

  ghost function TotalProduct(x: nat, value: nat, carry: nat): (total: nat)
    ensures total == x * value + carry
  {
    NonZeroProduct(x, value);
    x * value + carry
  }

  /** A non-zero bigit times a non-zero value leaves something in the stored word or in the carry. */
  lemma StoredNonZero(x: nat, value: nat, carry: nat, result: nat)
    requires result == x * value + carry
    ensures x > 0 && value > 0 && result / 0x1_0000_0000 == 0 ==> result % 0x1_0000_0000 != 0
  {
    NonZeroProduct(x, value);
  }

  /** The stored word and the carry of a shift: `(b << s) + carry` and `b >> (32 - s)`. */
  function ShiftWord(x: U32, carry: U32, two: nat, inv: nat, ghost result: nat): (c: (U32, U32))
    requires two * inv == 0x1_0000_0000 && carry < two
    requires result == x * two + carry
    ensures c == (result % 0x1_0000_0000, result / 0x1_0000_0000) && c.1 < two
  {
    ShiftStep(x, carry, two, inv);
    (x * two % 0x1_0000_0000 + carry, x / inv)
  }

  // ---- Comparison ----

  function Sign(x: int): (s: int) {
    if x > 0 then 1 else if x < 0 then -1 else 0
  }

  /** Operands the comparisons are meant for: a zero top bigit must not make a number look longer. */
  ghost predicate NotOverlong(n: BigInt, other: BigInt)
    reads n, other
  {
    TopNonZero(n.bigits) || n.NumBigits() <= other.NumBigits()
  }

  /** What `compare` returns: the order of the values, but equal values held with different exponents
      are told apart by their number of bigits. */
  ghost function CompareResult(lhs: BigInt, rhs: BigInt): int
    reads lhs, rhs
  {
    if lhs.Value() != rhs.Value() then Sign(lhs.Value() - rhs.Value()) else Sign(|lhs.bigits| - |rhs.bigits|)
  }

  method Compare(lhs: BigInt, rhs: BigInt) returns (order: int)
    requires NotOverlong(lhs, rhs) && NotOverlong(rhs, lhs)
    ensures order == CompareResult(lhs, rhs)
  {
    var numLhs, numRhs := lhs.NumBigits(), rhs.NumBigits();
    if numLhs != numRhs {
      if numLhs > numRhs {
        LongerIsLarger(lhs.bigits, lhs.exp, rhs.bigits, rhs.exp);
      } else {
        LongerIsLarger(rhs.bigits, rhs.exp, lhs.bigits, lhs.exp);
      }
      return if numLhs > numRhs then 1 else -1;
    }
    var i: int, j: int := |lhs.bigits| - 1, |rhs.bigits| - 1;
    var end := i - j;
    if end < 0 { end := 0; }
    LowIsValue(lhs.bigits, lhs.exp, numLhs); LowIsValue(rhs.bigits, rhs.exp, numRhs);
    while i >= end
      invariant end - 1 <= i < |lhs.bigits| && i - j == |lhs.bigits| - |rhs.bigits|
      invariant lhs.Value() - Low(lhs.bigits, lhs.exp, i + 1 + lhs.exp)
                == rhs.Value() - Low(rhs.bigits, rhs.exp, j + 1 + rhs.exp)
    {
      var lhsBigit, rhsBigit := lhs.bigits[i], rhs.bigits[j];
      ghost var k := i + lhs.exp;
      assert lhsBigit == Digit(lhs.bigits, lhs.exp, k) && rhsBigit == Digit(rhs.bigits, rhs.exp, k);
      if lhsBigit != rhsBigit {
        if lhsBigit > rhsBigit {
          TopDigitDecides(lhs.bigits, lhs.exp, rhs.bigits, rhs.exp, k);
        } else {
          TopDigitDecides(rhs.bigits, rhs.exp, lhs.bigits, lhs.exp, k);
        }
        return if lhsBigit > rhsBigit then 1 else -1;
      }
      i, j := i - 1, j - 1;
    }
    if j < 0 { LowIsZero(rhs.bigits, rhs.exp, j + 1 + rhs.exp); }
    if i < 0 { LowIsZero(lhs.bigits, lhs.exp, i + 1 + lhs.exp); }
    if i != j { return if i > j then 1 else -1; }
    return 0;
  }

  /** `add_compare`: the sign of lhs1 + lhs2 - rhs, for any lengths and exponents, as long as a zero top bigit does not
      make a number look longer than the others. */
  method AddCompare(lhs1: BigInt, lhs2: BigInt, rhs: BigInt) returns (order: int)
    requires NotOverlong(lhs1, rhs) && NotOverlong(lhs2, rhs)
    requires TopNonZero(rhs.bigits) || rhs.NumBigits() <= Max(lhs1.NumBigits(), lhs2.NumBigits()) + 1
    ensures order == Sign(lhs1.Value() + lhs2.Value() - rhs.Value())
  {
    var maxLhs := Max(lhs1.NumBigits(), lhs2.NumBigits());
    var numRhs := rhs.NumBigits();
    if maxLhs + 1 < numRhs {
      TwoShortOperands(lhs1, lhs2, rhs, maxLhs);
      return -1;
    }
    if maxLhs > numRhs {
      var longer := if lhs1.NumBigits() >= lhs2.NumBigits() then lhs1 else lhs2;
      LongerIsLarger(longer.bigits, longer.exp, rhs.bigits, rhs.exp);
      return 1;
    }
    order := AddCompareBigits(lhs1, lhs2, rhs);
  }

  /** The loop from the top position of rhs down, when neither other operand reaches above it. */
  method AddCompareBigits(lhs1: BigInt, lhs2: BigInt, rhs: BigInt) returns (order: int)
    requires lhs1.NumBigits() <= rhs.NumBigits() && lhs2.NumBigits() <= rhs.NumBigits()
    ensures order == Sign(lhs1.Value() + lhs2.Value() - rhs.Value())
  {
    var numRhs: int := rhs.NumBigits();
    var borrow: U64 := 0;
    var minExp := Min(Min(lhs1.exp, lhs2.exp), rhs.exp);
    var i: int := numRhs - 1;
    LowIsValue(lhs1.bigits, lhs1.exp, numRhs); LowIsValue(lhs2.bigits, lhs2.exp, numRhs);
    LowIsValue(rhs.bigits, rhs.exp, numRhs);
    while i >= minExp
      invariant minExp - 1 <= i < numRhs
      invariant borrow == 0 || borrow == 0x1_0000_0000
      invariant rhs.Value() - lhs1.Value() - lhs2.Value()
                == (if borrow == 0 then 0 else P(i + 1)) + LowDifference(lhs1, lhs2, rhs, i + 1)
    {
      var sum := Digit(lhs1.bigits, lhs1.exp, i) + Digit(lhs2.bigits, lhs2.exp, i);
      var rhsBigit := Digit(rhs.bigits, rhs.exp, i);
      LowDifferenceStep(lhs1, lhs2, rhs, i, borrow, sum, rhsBigit);
      if sum > rhsBigit + borrow { return 1; }
      borrow := rhsBigit + borrow - sum;
      if borrow > 1 { return -1; }
      borrow := borrow * 0x1_0000_0000;
      i := i - 1;
    }
    LowIsZero(lhs1.bigits, lhs1.exp, minExp); LowIsZero(lhs2.bigits, lhs2.exp, minExp);
    LowIsZero(rhs.bigits, rhs.exp, minExp);
    PPositive(minExp);
    return if borrow != 0 then -1 else 0;
  }

  /** What the positions below k contribute to rhs - lhs1 - lhs2. */
  ghost function LowDifference(lhs1: BigInt, lhs2: BigInt, rhs: BigInt, k: nat): int
    reads lhs1, lhs2, rhs
  {
    Low(rhs.bigits, rhs.exp, k) - Low(lhs1.bigits, lhs1.exp, k) - Low(lhs2.bigits, lhs2.exp, k)
  }

  /** Taking one more position into account; one unit missing, or two left over, can no longer be made up. */
  lemma LowDifferenceStep(lhs1: BigInt, lhs2: BigInt, rhs: BigInt, i: nat, borrow: nat, sum: nat, rhsBigit: nat)
    requires sum == Digit(lhs1.bigits, lhs1.exp, i) + Digit(lhs2.bigits, lhs2.exp, i)
    requires rhsBigit == Digit(rhs.bigits, rhs.exp, i)
    requires borrow == 0 || borrow == 0x1_0000_0000
    ensures var total := (if borrow == 0 then 0 else P(i + 1)) + LowDifference(lhs1, lhs2, rhs, i + 1);
            var d := rhsBigit + borrow - sum;
            && (d < 0 ==> total < 0)
            && (d == 0 ==> total == LowDifference(lhs1, lhs2, rhs, i))
            && (d == 1 ==> total == P(i) + LowDifference(lhs1, lhs2, rhs, i))
            && (d > 1 ==> total > 0)
  {
    LowBound(lhs1.bigits, lhs1.exp, i); LowBound(lhs2.bigits, lhs2.exp, i); LowBound(rhs.bigits, rhs.exp, i);
    ColumnDifference(borrow, P(i), rhsBigit, Digit(lhs1.bigits, lhs1.exp, i), Digit(lhs2.bigits, lhs2.exp, i),
                     LowDifference(lhs1, lhs2, rhs, i));
  }

  lemma ColumnDifference(borrow: nat, p: nat, r: nat, x: nat, y: nat, rest: int)
    requires borrow == 0 || borrow == 0x1_0000_0000
    requires -2 * p + 2 <= rest < p
    ensures var total := (if borrow == 0 then 0 else 0x1_0000_0000 * p) + p * r - p * x - p * y + rest;
            var d := r + borrow - (x + y);
            && (d < 0 ==> total < 0)
            && (d == 0 ==> total == rest)
            && (d == 1 ==> total == p + rest)
            && (d > 1 ==> total > 0)
  {
    var d := r + borrow - (x + y);
    assert d * p == p * r + borrow * p - p * x - p * y;
    if d < 0 { MulMonotone(d, -1, p); }
    if d > 1 { MulMonotone(2, d, p); }
  }

  lemma TwoShortOperands(lhs1: BigInt, lhs2: BigInt, rhs: BigInt, n: nat)
    requires TopNonZero(rhs.bigits) && n + 1 < rhs.NumBigits()
    requires lhs1.NumBigits() <= n && lhs2.NumBigits() <= n
    ensures lhs1.Value() + lhs2.Value() < rhs.Value()
  {
    ValueBound(lhs1.bigits, lhs1.exp); ValueBound(lhs2.bigits, lhs2.exp);
    PMonotone(lhs1.NumBigits(), n); PMonotone(lhs2.NumBigits(), n);
    ValueLowerBound(rhs.bigits, rhs.exp);
    PMonotone(n + 1, rhs.NumBigits() - 1);
  }

  lemma WordBits()
    ensures Pow(2, 32) == 0x1_0000_0000
  {
    assert Pow(2, 8) == 0x100;
    PowAdd(2, 8, 8); PowAdd(2, 16, 16);
  }

  lemma NonZeroProduct(x: nat, y: nat)
    ensures x * y >= 0
    ensures x > 0 && y > 0 ==> x * y > 0
  {}

  /** A shift by whole words moves the exponent; the rest of the shift is left to the bigits. */
  lemma ShiftValue(now: nat, was: nat, exp: nat, shift: nat)
    requires now == Pow(2, shift % 32) * was
    ensures P(exp + shift / 32) * now == P(exp) * was * Pow(2, shift)
  {
    PAdd(exp, shift / 32); PIsPow(shift / 32);
    PowAdd(2, 32 * (shift / 32), shift % 32);
    ShiftProduct(P(exp + shift / 32), P(exp), P(shift / 32), now, Pow(2, shift % 32), was, Pow(2, shift));
  }

  lemma ShiftProduct(pw: int, p: int, w: int, now: int, r: int, was: int, pow: int)
    requires pw == p * w && now == r * was && pow == w * r
    ensures pw * now == p * was * pow
  {
    Regroup(p, was, w, r);
    assert p * w * now == (p * w) * (was * r);
  }

  /** One step of the 32 x 64 multiplication: the stored word, and a carry that fits a double word. */
  function DoubleStep(x: U32, lower: U32, upper: U32, carry: U64, ghost value: nat, ghost total: nat): (c: (U32, U64))
    requires value == 0x1_0000_0000 * upper + lower && total == x * value + carry
    ensures c == (total % 0x1_0000_0000, total / 0x1_0000_0000)
  {
    SpreadDouble(x, lower, upper);
    var result := WideProduct(x, lower, carry % 0x1_0000_0000);
    CarryDouble(Term(x, upper), result, carry, total);
    (result % 0x1_0000_0000, Term(x, upper) + result / 0x1_0000_0000 + carry / 0x1_0000_0000)
  }

  lemma CarryDouble(high: nat, result: nat, carry: nat, total: nat)
    requires total == 0x1_0000_0000 * high + result + (carry - carry % 0x1_0000_0000)
    ensures total % 0x1_0000_0000 == result % 0x1_0000_0000
    ensures total / 0x1_0000_0000 == high + result / 0x1_0000_0000 + carry / 0x1_0000_0000
  {}

  lemma SpreadDouble(x: int, lower: int, upper: int)
    ensures x * (0x1_0000_0000 * upper + lower) == 0x1_0000_0000 * (x * upper) + x * lower
  {}

  lemma ScaleValue(e: int, now: int, was: int, value: int)
    requires now == value * was
    ensures e * now == e * was * value
  {
    Scale(e, was, value);
  }

  function WideProduct(x: U32, y: U32, carry: U32): (r: U64)
    ensures r == x * y + carry
    ensures r / 0x1_0000_0000 < 0x1_0000_0000
  {
    WordProduct(x, y);
    x * y + carry
  }
}
