/** The number that a little-endian sequence of 32-bit bigits with a bigit exponent denotes. */
module Bigits {
  import opened Words

  /** 2^(32 n), the weight of bigit position n. */
  function P(n: nat): nat {
    if n == 0 then 1 else 0x1_0000_0000 * P(n - 1)
  }

  function Val(s: seq<U32>): nat {
    if s == [] then 0 else s[0] + 0x1_0000_0000 * Val(s[1..])
  }

  /** bigits * 2^(32 exp). */
  function ValueOf(s: seq<U32>, exp: nat): nat { P(exp) * Val(s) }

  lemma {:induction false} PPositive(n: nat)
    ensures P(n) > 0
  {
    if n == 0 {
    } else {
      PPositive(n - 1);
    }
  }

  lemma {:induction false} PAdd(m: nat, n: nat)
    ensures P(m + n) == P(m) * P(n)
  {
    if m == 0 {
    } else {
      PAdd(m - 1, n);
      assert P(m + n) == 0x1_0000_0000 * P(m - 1 + n);
      Scale(0x1_0000_0000, P(m - 1), P(n));
    }
  }

  lemma {:induction false} PMonotone(m: nat, n: nat)
    requires m <= n
    ensures P(m) <= P(n)
  {
    if m < n { PMonotone(m, n - 1); }
  }

  lemma {:induction false} PIsPow(n: nat)
    ensures P(n) == Pow(2, 32 * n)
  {
    if n == 0 {
    } else {
      PIsPow(n - 1);
      assert Pow(2, 8) == 256;
      PowAdd(2, 8, 8); PowAdd(2, 16, 16); PowAdd(2, 32, 32 * (n - 1));
    }
  }

  // ---- Values of sequences ----

  lemma {:induction false} ValAppend(s: seq<U32>, t: seq<U32>)
    ensures Val(s + t) == Val(s) + P(|s|) * Val(t)
  {
    if s == [] {
      assert s + t == t;
    } else {
      assert (s + t)[1..] == s[1..] + t;
      ValAppend(s[1..], t);
      Scale(0x1_0000_0000, P(|s| - 1), Val(t));
    }
  }

  lemma ValSnoc(s: seq<U32>, x: U32)
    ensures Val(s + [x]) == Val(s) + P(|s|) * x
  {
    ValAppend(s, [x]);
    assert [x][1..] == [];
    assert Val([x]) == x;
  }

  /** The value of a prefix grows by its next bigit times that position's weight. */
  lemma ValPrefix(s: seq<U32>, i: nat)
    requires i < |s|
    ensures Val(s[..i + 1]) == Val(s[..i]) + P(i) * s[i]
  {
    assert s[..i + 1] == s[..i] + [s[i]];
    ValSnoc(s[..i], s[i]);
  }

  lemma {:induction false} ValBound(s: seq<U32>)
    ensures Val(s) < P(|s|)
  {
    if s == [] {
    } else {
      ValBound(s[1..]);
    }
  }

  predicate TopNonZero(s: seq<U32>) { s != [] && s[|s| - 1] != 0 }

  lemma ValLowerBound(s: seq<U32>)
    requires TopNonZero(s)
    ensures Val(s) >= P(|s| - 1) > 0
  {
    var n := |s| - 1;
    assert s[..n + 1] == s;
    ValPrefix(s, n);
    PPositive(n);
    MulMonotone(1, s[n], P(n));
  }

  function Zeros(n: nat): (z: seq<U32>)
    ensures |z| == n && forall i :: 0 <= i < n ==> z[i] == 0
  {
    if n == 0 then [] else [0] + Zeros(n - 1)
  }

  lemma {:induction false} ValZeros(s: seq<U32>)
    requires forall i :: 0 <= i < |s| ==> s[i] == 0
    ensures Val(s) == 0
  {
    if s == [] {
    } else {
      ValZeros(s[1..]);
    }
  }

  /** Changing one bigit changes the value by the difference times its weight. */
  lemma {:induction false} ValUpdate(s: seq<U32>, i: nat, x: U32)
    requires i < |s|
    ensures Val(s[i := x]) == Val(s) + P(i) * (x - s[i])
  {
    if i == 0 {
      assert s[0 := x][1..] == s[1..];
    } else {
      assert s[i := x][1..] == s[1..][i - 1 := x];
      ValUpdate(s[1..], i - 1, x);
      Scale(0x1_0000_0000, P(i - 1), x - s[i]);
    }
  }

  /** Dropping zero bigits from the top keeps the value. */
  lemma ValTrim(s: seq<U32>, n: nat)
    requires n <= |s| && forall i :: n <= i < |s| ==> s[i] == 0
    ensures Val(s[..n]) == Val(s)
  {
    assert s == s[..n] + s[n..];
    ValAppend(s[..n], s[n..]);
    ValZeros(s[n..]);
  }

  lemma ValShifted(s: seq<U32>, n: nat)
    ensures Val(Zeros(n) + s) == P(n) * Val(s)
  {
    ValAppend(Zeros(n), s);
    ValZeros(Zeros(n));
  }

  // ---- Digits by absolute position ----

  /** `get_bigit`: the bigit at an absolute position, zero outside the stored ones. */
  function Digit(s: seq<U32>, exp: nat, i: nat): U32 {
    if exp <= i < exp + |s| then s[i - exp] else 0
  }

  /** The part of the number held by the positions below k. */
  function Low(s: seq<U32>, exp: nat, k: nat): nat {
    if k == 0 then 0 else Low(s, exp, k - 1) + P(k - 1) * Digit(s, exp, k - 1)
  }

  lemma {:induction false} LowBound(s: seq<U32>, exp: nat, k: nat)
    ensures Low(s, exp, k) < P(k)
  {
    if k == 0 {
    } else {
      LowBound(s, exp, k - 1);
      DigitRoom(Low(s, exp, k - 1), P(k - 1), Digit(s, exp, k - 1));
    }
  }

  lemma DigitRoom(low: nat, p: nat, d: U32)
    requires low < p
    ensures low + p * d < 0x1_0000_0000 * p
  {
    MulMonotone(d, 0xffff_ffff, p);
  }

  lemma {:induction false} LowIsZero(s: seq<U32>, exp: nat, k: nat)
    requires k <= exp
    ensures Low(s, exp, k) == 0
  {
    if k == 0 {
    } else {
      LowIsZero(s, exp, k - 1);
    }
  }

  lemma {:induction false} LowIsPrefix(s: seq<U32>, exp: nat, i: nat)
    requires i <= |s|
    ensures Low(s, exp, exp + i) == ValueOf(s[..i], exp)
  {
    if i == 0 {
      LowIsZero(s, exp, exp);
      assert s[..0] == [];
    } else {
      LowIsPrefix(s, exp, i - 1);
      ValPrefix(s, i - 1);
      PAdd(exp, i - 1);
      GrowScaled(P(exp), Val(s[..i - 1]), P(i - 1), s[i - 1]);
    }
  }

  /** From its own top position on, a number is all of its low part. */
  lemma {:induction false} LowIsValue(s: seq<U32>, exp: nat, k: nat)
    requires k >= exp + |s|
    ensures Low(s, exp, k) == ValueOf(s, exp)
  {
    if k == exp + |s| {
      LowIsPrefix(s, exp, |s|);
      assert s[..|s|] == s;
    } else {
      LowIsValue(s, exp, k - 1);
    }
  }

  lemma GrowScaled(e: int, v: int, p: int, x: int)
    ensures e * (v + p * x) == e * v + e * p * x
  {}

  lemma ValueBound(s: seq<U32>, exp: nat)
    ensures ValueOf(s, exp) < P(exp + |s|)
  {
    ValBound(s);
    PPositive(exp); PAdd(exp, |s|);
    MulStrict(Val(s), P(|s|), P(exp));
  }

  lemma ValueLowerBound(s: seq<U32>, exp: nat)
    requires TopNonZero(s)
    ensures ValueOf(s, exp) >= P(exp + |s| - 1) > 0
  {
    ValLowerBound(s);
    PPositive(exp + |s| - 1); PAdd(exp, |s| - 1);
    MulMonotone(P(|s| - 1), Val(s), P(exp));
  }

  /** A number with a non-zero top bigit exceeds every number that ends at a lower position. */
  lemma LongerIsLarger(s: seq<U32>, se: nat, t: seq<U32>, te: nat)
    requires TopNonZero(s) && se + |s| > te + |t|
    ensures ValueOf(s, se) > ValueOf(t, te)
  {
    ValueLowerBound(s, se); ValueBound(t, te);
    PMonotone(te + |t|, se + |s| - 1);
  }

  /** The highest position where two numbers differ decides between them. */
  lemma TopDigitDecides(s: seq<U32>, se: nat, t: seq<U32>, te: nat, k: nat)
    requires Digit(s, se, k) > Digit(t, te, k)
    ensures Low(s, se, k + 1) > Low(t, te, k + 1)
  {
    LowBound(t, te, k);
    TopDigitDominates(Digit(s, se, k), Digit(t, te, k), P(k), Low(t, te, k));
  }

  lemma TopDigitDominates(x: nat, y: nat, p: nat, low: nat)
    requires x > y && low < p
    ensures p * x > low + p * y
  {
    MulMonotone(y + 1, x, p);
  }

  // ---- Steps of the in-place loops ----

  /** One bigit of a multiplication by a word: what is stored plus the carry is the exact product so far. */
  lemma MultiplyStep(done: int, was: int, p: int, x: int, value: int, carry: int, result: int)
    requires done + p * carry == value * was && result == x * value + carry
    ensures done + p * (result % 0x1_0000_0000) + 0x1_0000_0000 * p * (result / 0x1_0000_0000)
            == value * (was + p * x)
  {
    var q, r := result / 0x1_0000_0000, result % 0x1_0000_0000;
    calc {
      p * r + 0x1_0000_0000 * p * q;
      { SplitWord(p, q, r); }
      p * result;
      p * (x * value + carry);
      { ScaleSum(p, x, value, carry); }
      value * (p * x) + p * carry;
    }
  }

  /** The first i bigits have been multiplied by value, the carry is what they still owe, the rest is untouched. */
  ghost predicate Scaled(now: seq<U32>, was: seq<U32>, i: nat, value: nat, carry: nat) {
    && i <= |now| == |was|
    && now[i..] == was[i..]
    && Val(now[..i]) + P(i) * carry == value * Val(was[..i])
  }

  /** Storing the low word of bigit times value plus carry extends the scaled prefix. */
  lemma ScaleNext(now: seq<U32>, was: seq<U32>, i: nat, value: nat, carry: nat, result: nat)
    requires i < |was| && Scaled(now, was, i, value, carry)
    requires result == was[i] * value + carry
    ensures Scaled(now[i := result % 0x1_0000_0000], was, i + 1, value, result / 0x1_0000_0000)
  {
    var after := now[i := result % 0x1_0000_0000];
    MultiplyStep(Val(now[..i]), Val(was[..i]), P(i), was[i], value, carry, result);
    ValPrefix(was, i);
    assert after[..i] == now[..i];
    ValPrefix(after, i);
    assert after[i + 1..] == now[i + 1..] == now[i..][1..];
    assert was[i..][1..] == was[i + 1..];
  }

  lemma ScaleStart(was: seq<U32>, value: nat)
    ensures Scaled(was, was, 0, value, 0)
  {
    assert was[..0] == [];
  }

  lemma ScaleEnd(now: seq<U32>, was: seq<U32>, value: nat, carry: nat)
    requires Scaled(now, was, |was|, value, carry)
    ensures Val(now) + P(|now|) * carry == value * Val(was)
  {
    assert now[..|was|] == now && was[..|was|] == was;
  }

  /** Pushing the low word of the carry. */
  lemma PushCarry(now: seq<U32>, carry: nat)
    ensures Val(now + [carry % 0x1_0000_0000]) + P(|now| + 1) * (carry / 0x1_0000_0000)
            == Val(now) + P(|now|) * carry
  {
    ValSnoc(now, carry % 0x1_0000_0000);
    SplitCarry(P(|now|), P(|now| + 1), carry);
  }

  lemma SplitCarry(p: int, next: int, carry: int)
    requires next == 0x1_0000_0000 * p
    ensures p * (carry % 0x1_0000_0000) + next * (carry / 0x1_0000_0000) == p * carry
  {
    SplitWord(p, carry / 0x1_0000_0000, carry % 0x1_0000_0000);
  }

  lemma SplitWord(p: int, q: int, r: int)
    ensures p * r + 0x1_0000_0000 * p * q == p * (0x1_0000_0000 * q + r)
  {}

  lemma ScaleSum(p: int, x: int, value: int, carry: int)
    ensures p * (x * value + carry) == value * (p * x) + p * carry
  {}

  /** One bigit of a left shift by less than a word. */
  lemma ShiftStep(x: U32, carry: nat, two: nat, inv: nat)
    requires two * inv == 0x1_0000_0000 && carry < two
    ensures inv > 0 && x / inv < two
    ensures x / inv == (x * two + carry) / 0x1_0000_0000
    ensures x * two % 0x1_0000_0000 + carry == (x * two + carry) % 0x1_0000_0000
  {
    var q, product := x / inv, x * two;
    var rest := ShiftSplit(x, two, inv);
    DivUnique(product, 0x1_0000_0000, q, rest);
    DivUnique(product + carry, 0x1_0000_0000, q, rest + carry);
    if q >= two { MulMonotone(two, q, inv); }
  }

  lemma ShiftSplit(x: nat, two: nat, inv: nat) returns (rest: nat)
    requires two * inv == 0x1_0000_0000
    ensures inv > 0 && x * two == 0x1_0000_0000 * (x / inv) + rest && rest + two <= 0x1_0000_0000
  {
    var q, r := x / inv, x % inv;
    Scale(two, inv, q);
    rest := r * two;
    MulMonotone(r, inv - 1, two);
    assert x * two == (inv * q + r) * two;
  }

  // ---- Subtraction ----

  /** A subtrahend that starts offset positions up. */
  function Subtrahend(other: seq<U32>, offset: nat): nat { P(offset) * Val(other) }

  /** What a borrow of 0 or 1 from position i is worth. */
  function Owed(borrow: nat, i: nat): nat { if borrow == 0 then 0 else P(i) }

  /** The positions below i hold the difference, up to a borrow owed by position i; the rest is untouched. */
  ghost predicate Subtracted(now: seq<U32>, was: seq<U32>, other: seq<U32>, offset: nat, j: nat, borrow: nat) {
    && borrow <= 1 && j <= |other| && offset + j <= |now| == |was|
    && now[offset + j..] == was[offset + j..]
    && Val(now[..offset + j]) == Val(was[..offset + j]) - Subtrahend(other[..j], offset) + Owed(borrow, offset + j)
  }

  lemma SubtractStart(was: seq<U32>, other: seq<U32>, offset: nat)
    requires offset <= |was|
    ensures Subtracted(was, was, other, offset, 0, 0)
  {
    assert other[..0] == [];
  }

  lemma SubtractNext(now: seq<U32>, was: seq<U32>, other: seq<U32>, offset: nat, j: nat, borrow: nat,
                     digit: U32, owed: nat)
    requires owed <= 1
    requires j < |other| && offset + j < |now| && Subtracted(now, was, other, offset, j, borrow)
    requires digit - 0x1_0000_0000 * owed == was[offset + j] - other[j] - borrow
    ensures Subtracted(now[offset + j := digit], was, other, offset, j + 1, owed)
  {
    var i := offset + j;
    var after := now[i := digit];
    assert after[..i] == now[..i];
    ValPrefix(after, i); ValPrefix(was, i); ValPrefix(other, j);
    PAdd(offset, j);
    GrowScaled(P(offset), Val(other[..j]), P(j), other[j]);
    SubtractColumn(P(i), digit, owed, was[i], other[j], borrow);
    assert after[i + 1..] == now[i..][1..];
    assert was[i..][1..] == was[i + 1..];
  }

  lemma SubtractColumn(p: int, digit: int, owed: int, x: int, y: int, borrow: int)
    requires digit - 0x1_0000_0000 * owed == x - y - borrow && 0 <= owed <= 1 && 0 <= borrow <= 1
    ensures p * digit == p * x - p * y - (if borrow == 0 then 0 else p) + (if owed == 0 then 0 else 0x1_0000_0000 * p)
  {
    assert p * (digit - 0x1_0000_0000 * owed) == p * (x - y - borrow);
  }

  lemma SubtractEnd(now: seq<U32>, was: seq<U32>, other: seq<U32>, offset: nat, borrow: nat)
    requires Subtracted(now, was, other, offset, |other|, borrow)
    ensures Val(now) == Val(was) - Subtrahend(other, offset) + Owed(borrow, offset + |other|)
  {
    var i := offset + |other|;
    assert now == now[..i] + now[i..] && was == was[..i] + was[i..];
    ValAppend(now[..i], now[i..]); ValAppend(was[..i], was[i..]);
    assert other[..|other|] == other;
  }

  /** A borrow is owed exactly when the low part of the minuend is too small. */
  lemma BorrowMeans(now: seq<U32>, was: seq<U32>, other: seq<U32>, offset: nat, borrow: nat)
    requires Subtracted(now, was, other, offset, |other|, borrow) && borrow <= 1
    ensures Val(now) == Val(was) - Subtrahend(other, offset) + Owed(borrow, offset + |other|)
    ensures borrow == 1 <==> Val(was[..offset + |other|]) < Subtrahend(other, offset)
    ensures offset + |other| < |now| ==> now[offset + |other|] == was[offset + |other|]
  {
    var i := offset + |other|;
    SubtractEnd(now, was, other, offset, borrow);
    ValBound(now[..i]);
    assert other[..|other|] == other;
    if i < |now| { assert now[i] == now[i..][0] == was[i..][0] == was[i]; }
  }

  lemma BorrowFits(now: seq<U32>, was: seq<U32>, other: seq<U32>, offset: nat)
    requires Subtracted(now, was, other, offset, |other|, 1)
    requires Val(was) >= Subtrahend(other, offset)
    ensures offset + |other| < |now|
  {
    BorrowMeans(now, was, other, offset, 1);
    ValBound(now);
  }

  /** What the borrow loop does to the bigit above the subtrahend. */
  function AfterBorrow(x: U32): U32 { if x != 0 then x - 1 else 0xffff_fffe }

  /** Taking one from a non-zero bigit is right, going round a zero one is not. */
  lemma BorrowTaken(mid: seq<U32>, difference: int, i: nat)
    requires i < |mid| && Val(mid) == difference + P(i)
    ensures Val(mid[i := AfterBorrow(mid[i])]) == difference <==> mid[i] != 0
  {
    PPositive(i);
    ValUpdate(mid, i, AfterBorrow(mid[i]));
    if mid[i] != 0 {
      assert P(i) + P(i) * (AfterBorrow(mid[i]) - mid[i]) == 0;
    } else {
      assert P(i) * (AfterBorrow(mid[i]) - mid[i]) == 0xffff_fffe * P(i);
    }
  }

  /** After both loops: the difference is right exactly when no borrow was owed or the next bigit settled it. */
  lemma Settled(now: seq<U32>, mid: seq<U32>, was: seq<U32>, other: seq<U32>, offset: nat, borrow: nat)
    requires Subtracted(mid, was, other, offset, |other|, borrow) && borrow <= 1
    requires borrow == 1 ==> offset + |other| < |mid|
    requires now == if borrow == 0 then mid else mid[offset + |other| := AfterBorrow(mid[offset + |other|])]
    ensures Val(now) == Val(was) - Subtrahend(other, offset) <==>
            Val(was[..offset + |other|]) >= Subtrahend(other, offset)
            || (offset + |other| < |was| && was[offset + |other|] != 0)
  {
    var difference := Val(was) - Subtrahend(other, offset);
    BorrowMeans(mid, was, other, offset, borrow);
    if borrow == 1 { BorrowTaken(mid, difference, offset + |other|); }
  }
}
