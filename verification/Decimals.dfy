/** Decimal digit strings, and rounding to nearest with ties to even. */
module Decimals {
  import opened Words

  // ---- Digit strings ----

  function DigitOf(c: char): int { c as int - '0' as int }

  /** The character for a digit; ten is the overflow character after '9'. */
  function CharOf(digit: nat): (c: char)
    requires digit <= 10
    ensures DigitOf(c) == digit
  {
    ('0' as int + digit) as char
  }

  predicate IsDigit(c: char) { '0' <= c <= '9' }

  predicate AllDigits(s: seq<char>) { forall i :: 0 <= i < |s| ==> IsDigit(s[i]) }

  /** The number a digit string denotes, most significant digit first. */
  function Digits(s: seq<char>): int {
    if s == [] then 0 else 10 * Digits(s[..|s| - 1]) + DigitOf(s[|s| - 1])
  }

  lemma DigitsSnoc(s: seq<char>, c: char)
    ensures Digits(s + [c]) == 10 * Digits(s) + DigitOf(c)
  {
    assert (s + [c])[..|s|] == s;
  }

  /** Replacing one character changes the number by the difference times the weight of its place. */
  lemma {:induction false} DigitsUpdate(s: seq<char>, i: nat, c: char)
    requires i < |s|
    ensures Digits(s[i := c]) == Digits(s) + (DigitOf(c) - DigitOf(s[i])) * Pow(10, |s| - 1 - i)
  {
    var n := |s| - 1;
    if i == n {
      assert s[i := c][..n] == s[..n];
    } else {
      assert s[i := c][..n] == s[..n][i := c];
      DigitsUpdate(s[..n], i, c);
      TenTimes(DigitOf(c) - DigitOf(s[i]), Pow(10, n - 1 - i));
    }
  }

  lemma TenTimes(d: int, p: int)
    ensures 10 * (d * p) == d * (10 * p)
  {}

  /** A carry: ten in one place is one in the place before it. */
  lemma CarryKeepsNumber(s: seq<char>, i: nat)
    requires 0 < i < |s| && s[i] == ':' && IsDigit(s[i - 1])
    ensures Digits(s[i := '0'][i - 1 := CharOf(DigitOf(s[i - 1]) + 1)]) == Digits(s)
  {
    var t := s[i := '0'];
    DigitsUpdate(s, i, '0');
    DigitsUpdate(t, i - 1, CharOf(DigitOf(s[i - 1]) + 1));
  }

  lemma {:induction false} LeadingDigit(s: seq<char>)
    requires s != [] && forall k :: 0 < k < |s| ==> s[k] == '0'
    ensures Digits(s) == DigitOf(s[0]) * Pow(10, |s| - 1)
  {
    var n := |s| - 1;
    if n == 0 {
      assert s[..0] == [];
    } else {
      LeadingDigit(s[..n]);
      TenTimes(DigitOf(s[0]), Pow(10, n - 1));
    }
  }

  lemma {:induction false} DigitsNonNegative(s: seq<char>)
    requires forall i :: 0 <= i < |s| ==> '0' <= s[i]
    ensures Digits(s) >= 0
  {
    if s == [] {
    } else {
      DigitsNonNegative(s[..|s| - 1]);
    }
  }

  // ---- Rounding ----

  /** n/d rounded to an integer, ties to even (roundTiesToEven, section 4.3.1 of IEEE 754-2019). */
  function RoundHalfEven(n: nat, d: nat): nat
    requires d > 0
  {
    var q, r := n / d, n % d;
    if 2 * r > d || (2 * r == d && q % 2 != 0) then q + 1 else q
  }

  /** k is an integer nearest to n/d, and the even one when two are equally near. */
  predicate NearestEven(n: int, d: int, k: int) {
    && -d <= 2 * (n - k * d) <= d
    && (2 * (n - k * d) == d || 2 * (n - k * d) == -d ==> k % 2 == 0)
  }

  lemma RoundHalfEvenIsNearest(n: nat, d: nat)
    requires d > 0
    ensures NearestEven(n, d, RoundHalfEven(n, d))
  {
    var q, r := n / d, n % d;
    assert n - q * d == r;
    assert n - (q + 1) * d == r - d;
  }

  lemma NearestEvenIsUnique(n: int, d: nat, j: int, k: int)
    requires d > 0 && NearestEven(n, d, j) && NearestEven(n, d, k)
    ensures j == k
  {
    if j < k {
      NotBothNearest(n, d, j, k);
    } else if k < j {
      NotBothNearest(n, d, k, j);
    }
  }

  lemma NotBothNearest(n: int, d: nat, j: int, k: int)
    requires d > 0 && j < k
    ensures !(NearestEven(n, d, j) && NearestEven(n, d, k))
  {
    MulMonotone(j + 1, k, d);
    if k > j + 1 {
      MulMonotone(j + 2, k, d);
    }
  }

  /** Quotient digit by digit: rounding by the remainder is rounding the whole. */
  lemma RoundByRemainder(n: nat, d: nat, q: nat, r: nat)
    requires n == q * d + r && r < d
    ensures RoundHalfEven(n, d) == if 2 * r > d || (2 * r == d && q % 2 != 0) then q + 1 else q
  {
    DivUnique(n, d, q, r);
  }
}
