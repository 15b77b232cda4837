/** Divisibility by powers of five through modular inverses, and the removal of trailing decimal zeros. */
module TrailingZeros {
  import opened Words

  // ---- The test behind the tables ----

  /** Multiplying by the inverse of d modulo w lands in the first (w-1)/d + 1 residues exactly for the
      multiples of d, and there it is division by d. */
  lemma InverseTest(x: nat, d: nat, inv: nat, w: nat)
    requires x < w && 0 < d && d * inv % w == 1
    ensures x * inv % w <= (w - 1) / d <==> x % d == 0
    ensures x % d == 0 ==> x * inv % w == x / d
  {
    if x % d == 0 {
      MultiplePasses(x / d, d, inv, w);
      DivMonotone(x, w - 1, d);
    }
    if x * inv % w <= (w - 1) / d {
      PasserIsMultiple(x, d, inv, w);
    }
  }

  lemma MultiplePasses(k: nat, d: nat, inv: nat, w: nat)
    requires d * k < w && 0 < d && d * inv % w == 1
    ensures d * k * inv % w == k
  {
    var g := d * inv / w;
    assert d * k * inv == k * (d * inv);
    assert k * (w * g + 1) == w * (k * g) + k;
    MulMonotone(1, d, k);
    DivUnique(d * k * inv, w, k * g, k);
  }

  lemma PasserIsMultiple(x: nat, d: nat, inv: nat, w: nat)
    requires x < w && 0 < d && d * inv % w == 1
    requires x * inv % w <= (w - 1) / d
    ensures x % d == 0
  {
    var y, g, h := x * inv % w, d * inv / w, x * inv / w;
    BelowModulus(y, d, w);
    Unmultiply(x, d, inv, w, g, h, y);
    SameResidue(y * d, x, w, x * g - h * d);
    DivUnique(x, d, y, 0);
  }

  lemma BelowModulus(y: nat, d: nat, w: nat)
    requires 0 < d && 0 < w && y <= (w - 1) / d
    ensures 0 <= y * d < w
  {
    var q, r := (w - 1) / d, (w - 1) % d;
    assert w - 1 == d * q + r;
    MulMonotone(y, q, d);
  }

  lemma Unmultiply(x: int, d: int, inv: int, w: int, g: int, h: int, y: int)
    requires d * inv == w * g + 1 && x * inv == w * h + y
    ensures y * d == x + w * (x * g - h * d)
  {
    calc {
      y * d;
      (x * inv - w * h) * d;
      { Associate(x, inv, d); Associate(w, h, d); }
      x * (d * inv) - w * (h * d);
      x * (w * g + 1) - w * (h * d);
      { Associate(x, g, w); }
      w * (x * g) + x - w * (h * d);
      x + w * (x * g - h * d);
    }
  }

  lemma Associate(a: int, b: int, c: int)
    ensures a * b * c == a * (c * b) == c * (a * b)
  {}

  function DivTest32(exp: nat): (entry: (U32, U32)) {
    match exp
    case 0 => (0x00000001, 0xffffffff)
    case 1 => (0xcccccccd, 0x33333333)
    case 2 => (0xc28f5c29, 0x0a3d70a3)
    case 3 => (0x26e978d5, 0x020c49ba)
    case 4 => (0x3afb7e91, 0x0068db8b)
    case 5 => (0x0bcbe61d, 0x0014f8b5)
    case 6 => (0x68c26139, 0x000431bd)
    case 7 => (0xae8d46a5, 0x0000d6bf)
    case 8 => (0x22e90e21, 0x00002af3)
    case 9 => (0x3a2e9c6d, 0x00000897)
    case _ => (0x3ed61f49, 0x000001b7)
  }

  function DivTest64(exp: nat): (entry: (U64, U64)) {
    match exp
    case 0 => (0x0000000000000001, 0xffffffffffffffff)
    case 1 => (0xcccccccccccccccd, 0x3333333333333333)
    case 2 => (0x8f5c28f5c28f5c29, 0x0a3d70a3d70a3d70)
    case 3 => (0x1cac083126e978d5, 0x020c49ba5e353f7c)
    case 4 => (0xd288ce703afb7e91, 0x0068db8bac710cb2)
    case 5 => (0x5d4e8fb00bcbe61d, 0x0014f8b588e368f0)
    case 6 => (0x790fb65668c26139, 0x000431bde82d7b63)
    case 7 => (0xe5032477ae8d46a5, 0x0000d6bf94d5e57a)
    case 8 => (0xc767074b22e90e21, 0x00002af31dc46118)
    case 9 => (0x8e47ce423a2e9c6d, 0x0000089705f4136b)
    case 10 => (0x4fa7f60d3ed61f49, 0x000001b7cdfd9d7b)
    case 11 => (0x0fee64690c913975, 0x00000057f5ff85e5)
    case 12 => (0x3662e0e1cf503eb1, 0x000000119799812d)
    case 13 => (0xa47a2cf9f6433fbd, 0x0000000384b84d09)
    case 14 => (0x54186f653140a659, 0x00000000b424dc35)
    case 15 => (0x7738164770402145, 0x0000000024075f3d)
    case 16 => (0xe4a4d1417cd9a041, 0x000000000734aca5)
    case 17 => (0xc75429d9e5c5200d, 0x000000000170ef54)
    case 18 => (0xc1773b91fac10669, 0x000000000049c977)
    case 19 => (0x26b172506559ce15, 0x00000000000ec1e4)
    case 20 => (0xd489e3a9addec2d1, 0x000000000002f394)
    case 21 => (0x90e860bb892c8d5d, 0x000000000000971d)
    case 22 => (0x502e79bf1b6f4f79, 0x0000000000001e39)
    case _ => (0xdcd618596be30fe5, 0x000000000000060b)
  }

  /** Every table row holds the inverse of pow(5, exp) and the largest quotient. */
  lemma Table32(exp: nat)
    requires exp <= 10
    ensures Pow(5, exp) * DivTest32(exp).0 % 0x1_0000_0000 == 1
    ensures DivTest32(exp).1 == (0x1_0000_0000 - 1) / Pow(5, exp)
  {
    match exp
    case 0 => assert Pow(5, 0) == 1;
    case 1 => assert Pow(5, 1) == 5;
    case 2 => assert Pow(5, 2) == 25;
    case 3 => assert Pow(5, 3) == 125;
    case 4 => assert Pow(5, 4) == 625;
    case 5 => assert Pow(5, 5) == 3125;
    case 6 => assert Pow(5, 6) == 15625;
    case 7 => assert Pow(5, 7) == 78125;
    case 8 => assert Pow(5, 8) == 390625;
    case 9 => assert Pow(5, 9) == 1953125;
    case _ => assert Pow(5, 10) == 9765625;
  }

  lemma PowersOfFive()
    ensures Pow(5, 8) == 390625 && Pow(5, 16) == 152587890625
  {
    assert Pow(5, 8) == 390625;
    PowAdd(5, 8, 8);
  }

  lemma Table64Low(exp: nat)
    requires 0 <= exp <= 7
    ensures Pow(5, exp) * DivTest64(exp).0 % 0x1_0000_0000_0000_0000 == 1
    ensures DivTest64(exp).1 == (0x1_0000_0000_0000_0000 - 1) / Pow(5, exp)
  {
    match exp
    case 0 => assert Pow(5, 0) == 1;
    case 1 => assert Pow(5, 1) == 5;
    case 2 => assert Pow(5, 2) == 25;
    case 3 => assert Pow(5, 3) == 125;
    case 4 => assert Pow(5, 4) == 625;
    case 5 => assert Pow(5, 5) == 3125;
    case 6 => assert Pow(5, 6) == 15625;
    case _ => assert Pow(5, 7) == 78125;
  }

  lemma Table64Middle(exp: nat)
    requires 8 <= exp <= 15
    ensures Pow(5, exp) * DivTest64(exp).0 % 0x1_0000_0000_0000_0000 == 1
    ensures DivTest64(exp).1 == (0x1_0000_0000_0000_0000 - 1) / Pow(5, exp)
  {
    PowersOfFive();
    PowAdd(5, 8, exp - 8);
    match exp - 8
    case 0 => assert Pow(5, 0) == 1;
    case 1 => assert Pow(5, 1) == 5;
    case 2 => assert Pow(5, 2) == 25;
    case 3 => assert Pow(5, 3) == 125;
    case 4 => assert Pow(5, 4) == 625;
    case 5 => assert Pow(5, 5) == 3125;
    case 6 => assert Pow(5, 6) == 15625;
    case _ => assert Pow(5, 7) == 78125;
  }

  lemma Table64High(exp: nat)
    requires 16 <= exp <= 19
    ensures Pow(5, exp) * DivTest64(exp).0 % 0x1_0000_0000_0000_0000 == 1
    ensures DivTest64(exp).1 == (0x1_0000_0000_0000_0000 - 1) / Pow(5, exp)
  {
    PowersOfFive();
    PowAdd(5, 16, exp - 16);
    match exp - 16
    case 0 => assert Pow(5, 0) == 1;
    case 1 => assert Pow(5, 1) == 5;
    case 2 => assert Pow(5, 2) == 25;
    case _ => assert Pow(5, 3) == 125;
  }

  lemma Table64Top(exp: nat)
    requires 20 <= exp <= 23
    ensures Pow(5, exp) * DivTest64(exp).0 % 0x1_0000_0000_0000_0000 == 1
    ensures DivTest64(exp).1 == (0x1_0000_0000_0000_0000 - 1) / Pow(5, exp)
  {
    PowersOfFive();
    PowAdd(5, 16, exp - 16);
    match exp - 16
    case 4 => assert Pow(5, 4) == 625;
    case 5 => assert Pow(5, 5) == 3125;
    case 6 => assert Pow(5, 6) == 15625;
    case _ => assert Pow(5, 7) == 78125;
  }

  /** Every table row holds the inverse of pow(5, exp) and the largest quotient. */
  lemma Table64(exp: nat)
    requires exp <= 23
    ensures Pow(5, exp) * DivTest64(exp).0 % 0x1_0000_0000_0000_0000 == 1
    ensures DivTest64(exp).1 == (0x1_0000_0000_0000_0000 - 1) / Pow(5, exp)
  {
    if exp < 8 {
      Table64Low(exp);
    } else if exp < 16 {
      Table64Middle(exp);
    } else if exp < 20 {
      Table64High(exp);
    } else {
      Table64Top(exp);
    }
  }

  /** `divisible_by_power_of_5` on 32-bit words. */
  predicate DivisibleByPowerOf5In32(x: U32, exp: nat)
    requires exp <= 10
  {
    x * DivTest32(exp).0 % 0x1_0000_0000 <= DivTest32(exp).1
  }

  lemma DivisibleIn32Exact(x: U32, exp: nat)
    requires exp <= 10
    ensures Pow(5, exp) > 0
    ensures DivisibleByPowerOf5In32(x, exp) <==> x % Pow(5, exp) == 0
  {
    PowPositive(5, exp);
    Table32(exp);
    InverseTest(x, Pow(5, exp), DivTest32(exp).0, 0x1_0000_0000);
  }

  /** `divisible_by_power_of_5` on 64-bit words. */
  predicate DivisibleByPowerOf5In64(x: U64, exp: nat)
    requires exp <= 23
  {
    x * DivTest64(exp).0 % 0x1_0000_0000_0000_0000 <= DivTest64(exp).1
  }

  lemma DivisibleIn64Exact(x: U64, exp: nat)
    requires exp <= 23
    ensures Pow(5, exp) > 0
    ensures DivisibleByPowerOf5In64(x, exp) <==> x % Pow(5, exp) == 0
  {
    PowPositive(5, exp);
    Table64(exp);
    InverseTest(x, Pow(5, exp), DivTest64(exp).0, 0x1_0000_0000_0000_0000);
  }

  // ---- Trailing zero bits and coprime factors ----

  /** `ctz`: the number of trailing zero bits. */
  function Ctz(n: nat): nat
    requires n > 0
  {
    if n % 2 == 1 then 0 else 1 + Ctz(n / 2)
  }

  /** The odd part left when the trailing zero bits are shifted out. */
  function OddPart(n: nat): (odd: nat)
    requires n > 0
    ensures odd % 2 == 1
    ensures n == Pow(2, Ctz(n)) * odd
  {
    if n % 2 == 1 then n else
      var odd := OddPart(n / 2);
      Associate(2, Pow(2, Ctz(n / 2)), odd);
      odd
  }

  /** 2 and 5, in either order: a power of one never supplies a factor of the other. */
  predicate TwoAndFive(p: nat, c: nat) { (p == 2 && c == 5) || (p == 5 && c == 2) }

  lemma {:induction false} StripOne(p: nat, c: nat, x: nat, m: nat, q: int) returns (y: nat)
    requires TwoAndFive(p, c)
    requires Pow(c, m) * x == p * q
    ensures x == p * y
  {
    if m == 0 {
      y := q;
    } else {
      var z := Pow(c, m - 1) * x;
      Associate(c, Pow(c, m - 1), x);
      assert c * z == p * q;
      y := StripOne(p, c, x, m - 1, if p == 2 then q - 2 * z else z - 2 * q);
    }
  }

  lemma {:induction false} StripMany(p: nat, c: nat, x: nat, m: nat, k: nat, q: int) returns (y: nat)
    requires TwoAndFive(p, c)
    requires Pow(c, m) * x == Pow(p, k) * q
    ensures x == Pow(p, k) * y
  {
    if k == 0 {
      y := x;
    } else {
      Associate(p, Pow(p, k - 1), q);
      var z := StripOne(p, c, x, m, Pow(p, k - 1) * q);
      CancelPrime(p, c, Pow(c, m) * z, Pow(p, k - 1) * q, Pow(c, m), z);
      y := StripMany(p, c, z, m, k - 1, q);
      Associate(p, Pow(p, k - 1), y);
    }
  }

  lemma CancelPrime(p: nat, c: nat, left: int, right: int, a: int, z: int)
    requires TwoAndFive(p, c)
    requires left == a * z && a * (p * z) == p * right
    ensures left == right
  {
    assert a * (p * z) == p * left;
  }

  /** Shifting out k low zero bits divides by pow(2, k). */
  lemma ShiftOut(x: nat, k: nat, y: nat)
    requires x == Pow(2, k) * y
    ensures Pow(2, k) > 0 && x / Pow(2, k) == y
  {
    PowPositive(2, k);
    DivUnique(x, Pow(2, k), y, 0);
  }

  /** What `remove_trailing_zeros` promises: n is n0 without s trailing zeros, and s is the most that the
      limit allows. */
  ghost predicate ZerosRemoved(n0: nat, n: int, s: nat, limit: nat) {
    && n0 == n * Pow(10, s)
    && s <= limit
    && (s < limit ==> n % 10 != 0)
  }

  lemma {:induction false} PowOfTwoAndFive(k: nat)
    ensures Pow(10, k) == Pow(5, k) * Pow(2, k)
  {
    PowProduct(5, 2, k);
  }

  /** Once s factors 5 are gone, shifting out s bits finishes the job. */
  lemma Finish(n0: nat, u: nat, s: nat, t: nat, limit: nat) returns (v: nat)
    requires n0 > 0 && n0 == Pow(5, s) * u
    requires s <= t <= limit && t <= Ctz(n0) && (t < limit ==> t == Ctz(n0))
    requires s == t || u % 5 != 0
    ensures u == Pow(2, s) * v && Pow(2, s) > 0 && u / Pow(2, s) == v
    ensures ZerosRemoved(n0, v, s, limit)
  {
    var odd, two, five := OddPart(n0), Pow(2, s), Pow(5, s);
    var rest := Pow(2, Ctz(n0) - s) * odd;
    PowAdd(2, s, Ctz(n0) - s);
    assert n0 == two * rest by { Regroup3(two, Pow(2, Ctz(n0) - s), odd); }
    v := StripMany(2, 5, u, s, s, rest);
    ShiftOut(u, s, v);
    PowOfTwoAndFive(s);
    Regroup3(five, two, v);
    assert n0 == v * Pow(10, s);
    if s < limit && v % 10 == 0 {
      LastDigit(u, two, v);
      assert Ctz(n0) - s == 0;
      Associate(two, five, v); Associate(five, two, v);
      PowPositive(2, s);
      CancelFactor(two, five * v, rest);
      LastDigit(odd, five, v);
      assert false;
    }
  }

  lemma Regroup3(a: int, b: int, c: int)
    ensures a * b * c == a * (b * c) == c * (a * b)
  {}

  lemma CancelFactor(a: nat, x: int, y: int)
    requires a > 0 && a * x == a * y
    ensures x == y
  {
    if x < y { MulMonotone(x + 1, y, a); } else if y < x { MulMonotone(y + 1, x, a); }
  }

  /** A multiple of a multiple of ten is even and divisible by five. */
  lemma LastDigit(u: nat, a: nat, v: nat)
    requires u == a * v && v % 10 == 0
    ensures u % 2 == 0 && u % 5 == 0
  {
    var w := v / 10;
    assert u == 10 * (a * w);
  }

  /** The test for 5 on 32-bit words: passing replaces the word by its fifth. */
  lemma FifthTest(x: U32)
    ensures x * 0xcccccccd % 0x1_0000_0000 <= 0x33333333 <==> x % 5 == 0
    ensures x % 5 == 0 ==> x * 0xcccccccd % 0x1_0000_0000 == x / 5
  {
    InverseTest(x, 5, 0xcccccccd, 0x1_0000_0000);
  }

  lemma TwentyFifthTest(x: U32)
    ensures x * 0xc28f5c29 % 0x1_0000_0000 <= 0x0a3d70a3 <==> x % 25 == 0
    ensures x % 25 == 0 ==> x * 0xc28f5c29 % 0x1_0000_0000 == x / 25
  {
    InverseTest(x, 25, 0xc28f5c29, 0x1_0000_0000);
  }

  /** The wrapped product with the inverse of 5: a fifth for multiples of 5, above the table's bound for others. */
  function FifthOf(x: U32): (product: U32)
    ensures x % 5 == 0 ==> 5 * product == x && product <= 0x33333333
    ensures x % 5 != 0 ==> product > 0x33333333
  {
    FifthTest(x);
    x * 0xcccccccd % 0x1_0000_0000
  }

  /** The same with the inverse of 25. */
  function TwentyFifthOf(x: U32): (product: U32)
    ensures x % 25 == 0 ==> 25 * product == x && product <= 0x0a3d70a3
    ensures x % 25 != 0 ==> product > 0x0a3d70a3
  {
    TwentyFifthTest(x);
    x * 0xc28f5c29 % 0x1_0000_0000
  }

  /** n with s factors 5 put back. */
  function WithFives(s: nat, n: nat): nat {
    if s == 0 then n else WithFives(s - 1, 5 * n)
  }

  lemma {:induction false} WithFivesIsProduct(s: nat, n: nat)
    ensures WithFives(s, n) == Pow(5, s) * n
  {
    if s == 0 {
    } else {
      WithFivesIsProduct(s - 1, 5 * n);
      Associate(5, Pow(5, s - 1), n); Associate(Pow(5, s - 1), n, 5);
    }
  }

  /** `remove_trailing_zeros` for float significands. */
  method RemoveTrailingZeros32(n0: U32) returns (n: U32, s: nat)
    requires n0 > 0
    ensures ZerosRemoved(n0, n, s, 7)
  {
    var t: int := Ctz(n0);
    if t > 7 { t := 7; }
    n, s := DivideByPairs(n0, t);
    var product := FifthOf(n);
    if s < t && product <= 0x33333333 {
      n := product;
      s := s + 1;
    }
    n := ShiftOutZeros(n0, n, s, t, 7);
  }

  /** The loop that takes out two factors 5 at a time. */
  method DivideByPairs(n0: U32, t: nat) returns (n: U32, s: nat)
    ensures s <= t && n0 == WithFives(s, n)
    ensures s + 1 >= t || n % 25 != 0
  {
    n, s := n0, 0;
    while s + 1 < t
      invariant s <= t && n0 == WithFives(s, n)
    {
      var product := TwentyFifthOf(n);
      if product > 0x0a3d70a3 { break; }
      assert WithFives(s, n) == WithFives(s + 1, 5 * product);
      n := product;
      s := s + 2;
    }
  }

  /** The closing `n >>= s`. */
  method ShiftOutZeros(ghost n0: nat, u: U32, s: nat, ghost t: nat, ghost limit: nat) returns (n: U32)
    requires n0 > 0 && n0 == WithFives(s, u)
    requires s <= t <= limit && t <= Ctz(n0) && (t < limit ==> t == Ctz(n0))
    requires s == t || u % 5 != 0
    ensures ZerosRemoved(n0, n, s, limit)
  {
    WithFivesIsProduct(s, u);
    ghost var v := Finish(n0, u, s, t, limit);
    PowPositive(2, s);
    MulMonotone(1, Pow(2, s), v);
    n := u / Pow(2, s);
  }

  /** Returning from the cascade on the low eight digits after k factors 5 were taken out of them. */
  lemma LeaveCascade(n0: nat, quotient: nat, rem: nat, k: nat, t: nat)
    requires n0 > 0 && k <= 7 && n0 == 100000000 * quotient + Pow(5, k) * rem
    requires k <= t <= 16 && t <= Ctz(n0) && (t < 16 ==> t == Ctz(n0))
    requires k == t || rem % 5 != 0
    ensures Pow(2, k) > 0
    ensures ZerosRemoved(n0, rem / Pow(2, k) + quotient * Pow(10, 8 - k), k, 16)
  {
    var high, lifted := ScaleQuotient(quotient, k);
    AddFactored(n0, 100000000 * quotient, Pow(5, k), rem, lifted);
    var v := Finish(n0, rem + lifted, k, t, 16);
    var low := SubtractFactored(rem, lifted, Pow(2, k), v, high);
    ShiftOut(rem, k, low);
  }

  lemma AddFactored(n0: nat, top: nat, five: nat, rem: nat, lifted: nat)
    requires n0 == top + five * rem && five * lifted == top && lifted % 5 == 0
    ensures n0 == five * (rem + lifted)
    ensures (rem + lifted) % 5 == rem % 5
  {}

  lemma SubtractFactored(rem: nat, lifted: nat, two: nat, v: int, high: int) returns (low: nat)
    requires rem + lifted == two * v && lifted == two * high && two > 0
    ensures rem == two * low && v == low + high
  {
    NonNegativeFactor(rem, two, v - high);
    low := v - high;
  }

  lemma ScaleQuotient(quotient: nat, k: nat) returns (high: nat, lifted: nat)
    requires k <= 7
    ensures high == quotient * Pow(10, 8 - k) && lifted == Pow(2, k) * high
    ensures Pow(5, k) * lifted == 100000000 * quotient
    ensures lifted % 5 == 0
  {
    var five, two, c5, c2 := Pow(5, k), Pow(2, k), Pow(5, 8 - k), Pow(2, 8 - k);
    PowAdd(5, k, 8 - k); PowAdd(2, k, 8 - k); PowOfTwoAndFive(8 - k);
    assert Pow(5, 8) == 390625 && Pow(2, 8) == 256;
    high := quotient * (c5 * c2);
    lifted := two * high;
    Reassemble(five, two, c5, c2, quotient);
    FiveInside(two, quotient, c5, Pow(5, 7 - k), c2);
  }

  lemma Reassemble(five: nat, two: nat, c5: nat, c2: nat, quotient: nat)
    requires five * c5 == 390625 && two * c2 == 256
    ensures five * (two * (quotient * (c5 * c2))) == 100000000 * quotient
  {
    Regroup(five, two, c5, c2);
    assert (five * two) * (c5 * c2) == 100000000;
    calc {
      five * (two * (quotient * (c5 * c2)));
      { Regroup3(five, two, quotient * (c5 * c2)); }
      five * two * (quotient * (c5 * c2));
      { Associate(five * two, c5 * c2, quotient); Associate(five * two, quotient, c5 * c2); }
      (five * two) * (c5 * c2) * quotient;
    }
  }

  lemma FiveInside(two: nat, quotient: nat, c5: nat, p: nat, c2: nat)
    requires c5 == 5 * p
    ensures two * (quotient * (c5 * c2)) % 5 == 0
  {
    var x := two * (quotient * (p * c2));
    assert c5 * c2 == 5 * (p * c2);
    assert quotient * (5 * (p * c2)) == 5 * (quotient * (p * c2));
    assert two * (5 * (quotient * (p * c2))) == 5 * x;
  }

  lemma NonNegativeFactor(x: nat, a: nat, y: int)
    requires a > 0 && x == a * y
    ensures y >= 0
  {
    if y < 0 { MulMonotone(y, -1, a); }
  }

  lemma EighthPowerTest(x: U64)
    ensures x * 0xc767074b22e90e21 % 0x1_0000_0000_0000_0000 <= 0x00002af31dc46118 <==> x % 390625 == 0
    ensures x % 390625 == 0 ==> x * 0xc767074b22e90e21 % 0x1_0000_0000_0000_0000 == x / 390625
  {
    InverseTest(x, 390625, 0xc767074b22e90e21, 0x1_0000_0000_0000_0000);
  }

  /** The wrapped product with the inverse of 5^8. */
  function EighthPowerOf(x: U64): (product: U64)
    ensures x % 390625 == 0 ==> 390625 * product == x && product <= 0x00002af31dc46118
    ensures x % 390625 != 0 ==> product > 0x00002af31dc46118
  {
    EighthPowerTest(x);
    x * 0xc767074b22e90e21 % 0x1_0000_0000_0000_0000
  }

  /** The test for 10^8 on 64-bit words with at least eight trailing zero bits. */
  lemma HundredMillionTest(n0: U64, t: nat)
    requires 0 < n0 < 100_000_000_000_000_000 && 8 <= t <= Ctz(n0)
    ensures var candidate := EighthPowerOf(n0);
            if candidate <= 0x00002af31dc46118 then
              && candidate / 256 < 1_000_000_000
              && n0 == WithFives(8, 256 * (candidate / 256))
            else
              n0 % 100_000_000 != 0
  {
    if n0 % 390625 == 0 {
      QuotientIsCandidate(n0, EighthPowerOf(n0));
    } else {
      MultipleOfPart(n0);
    }
  }

  lemma QuotientIsCandidate(n0: nat, candidate: nat)
    requires 0 < n0 < 100_000_000_000_000_000 && 8 <= Ctz(n0) && n0 == 390625 * candidate
    ensures candidate / 256 < 1_000_000_000 && n0 == WithFives(8, 256 * (candidate / 256))
  {
    var y := Eighth(n0, candidate);
    assert candidate / 256 == y;
    WithEightFives(256 * y);
  }

  lemma MultipleOfPart(n: nat)
    ensures n % 100_000_000 == 0 ==> n % 390625 == 0
  {
    if n % 100_000_000 == 0 {
      DivUnique(n, 390625, 256 * (n / 100_000_000), 0);
    }
  }

  lemma WithEightFives(x: nat)
    ensures WithFives(8, x) == 390625 * x
  {
    WithFivesIsProduct(8, x);
    assert Pow(5, 8) == 390625;
  }

  /** A number with eight trailing zero bits and eight factors 5 is a multiple of 10^8. */
  lemma Eighth(n0: nat, b: nat) returns (y: nat)
    requires n0 > 0 && Ctz(n0) >= 8 && n0 == 390625 * b
    ensures b == 256 * y
  {
    var two, odd := Pow(2, Ctz(n0) - 8), OddPart(n0);
    PowAdd(2, 8, Ctz(n0) - 8);
    Regroup3(Pow(2, 8), two, odd);
    assert Pow(5, 8) == 390625 && Pow(2, 8) == 256;
    y := StripMany(2, 5, b, 8, 8, two * odd);
  }

  lemma ShiftByMore(q: nat, s: nat)
    requires s >= 8
    ensures Pow(2, s) > 0 && Pow(2, s - 8) > 0 && 256 * q / Pow(2, s) == q / Pow(2, s - 8)
  {
    PowAdd(2, 8, s - 8);
    assert Pow(2, 8) == 256;
    PowPositive(2, s - 8);
    var p := Pow(2, s - 8);
    DivUnique(256 * q, 256 * p, q / p, 256 * (q % p));
  }

  /** The low eight decimal digits, through a 32-bit product that wraps. */
  lemma LowDigits(n0: U64)
    requires n0 < 100_000_000_000_000_000
    ensures n0 / 100000000 < 1_000_000_000 && n0 / 100000000 % 0x1_0000_0000 == n0 / 100000000
    ensures (n0 - 100000000 * (n0 / 100000000) % 0x1_0000_0000) % 0x1_0000_0000 == n0 % 100000000
  {
    var m := 100000000 * (n0 / 100000000);
    DivUnique(n0 - m % 0x1_0000_0000, 0x1_0000_0000, m / 0x1_0000_0000, n0 - m);
  }

  lemma MoreZeros(n0: nat, quotient: nat, rem: nat, t: nat)
    requires n0 == 100000000 * quotient + Pow(5, 7) * rem
    requires n0 % 100000000 != 0 && n0 > 0 && 8 <= t <= Ctz(n0)
    ensures rem % 5 != 0
  {
    assert Pow(5, 7) == 78125;
    if rem % 5 == 0 {
      EighthIsMultiple(n0, 256 * quotient + rem / 5);
    }
  }

  lemma EighthIsMultiple(n0: nat, b: nat)
    requires n0 > 0 && 8 <= Ctz(n0) && n0 == 390625 * b
    ensures n0 % 100000000 == 0
  {
    var y := Eighth(n0, b);
    DivUnique(n0, 100000000, y, 0);
  }

  /** Below 10^17 the limit of 16 never cuts the removal short. */
  lemma NoZeroLeft(n0: nat, n: nat, s: nat)
    requires 0 < n0 < 100_000_000_000_000_000 && ZerosRemoved(n0, n, s, 16)
    ensures n % 10 != 0
  {
    if s == 16 {
      assert Pow(10, 8) == 100_000_000;
      PowAdd(10, 8, 8);
      assert n0 == n * 10_000_000_000_000_000;
    }
  }

  /** `remove_trailing_zeros` for double significands. */
  method RemoveTrailingZeros64(n0: U64) returns (n: U64, s: nat)
    requires 0 < n0 < 100_000_000_000_000_000
    ensures ZerosRemoved(n0, n, s, 16) && n % 10 != 0
  {
    var t: int := Ctz(n0);
    if t > 16 { t := 16; }
    if t >= 8 {
      HundredMillionTest(n0, t);
      var candidate := EighthPowerOf(n0);
      if candidate <= 0x00002af31dc46118 {
        n, s := DivideHighDigits(n0, candidate / 256, t);
        NoZeroLeft(n0, n, s);
        return;
      }
    }
    LowDigits(n0);
    var quotient: U32 := n0 / 100000000 % 0x1_0000_0000;
    var remainder: U32 := (n0 - 100000000 * quotient % 0x1_0000_0000) % 0x1_0000_0000;
    n, s := DivideLowDigits(n0, quotient, remainder, t);
    NoZeroLeft(n0, n, s);
  }

  lemma FinishHigh(n0: nat, quotient: nat, s: nat, t: nat)
    requires n0 > 0 && n0 == WithFives(s, 256 * quotient)
    requires 8 <= s <= t <= 16 && t <= Ctz(n0) && (t < 16 ==> t == Ctz(n0))
    requires s == t || quotient % 5 != 0
    ensures Pow(2, s - 8) > 0 && 0 <= quotient / Pow(2, s - 8) <= quotient
    ensures ZerosRemoved(n0, quotient / Pow(2, s - 8), s, 16)
  {
    var u := 256 * quotient;
    WithFivesIsProduct(s, u);
    NoFive(quotient);
    var v := Finish(n0, u, s, t, 16);
    ShiftByMore(quotient, s);
    Smaller(quotient, Pow(2, s - 8));
  }

  lemma NoFive(x: nat)
    ensures 256 * x % 5 == 0 ==> x % 5 == 0
  {}

  lemma Smaller(x: nat, p: nat)
    requires p > 0
    ensures 0 <= x / p <= x
  {
    MulMonotone(1, p, x / p);
  }

  /** The branch for multiples of 10^8. */
  method DivideHighDigits(ghost n0: U64, high: U32, t: nat) returns (n: U64, s: nat)
    requires n0 > 0 && n0 == WithFives(8, 256 * high)
    requires 8 <= t <= 16 && t <= Ctz(n0) && (t < 16 ==> t == Ctz(n0))
    ensures ZerosRemoved(n0, n, s, 16)
  {
    var quotient: U32 := high;
    s := 8;
    while s < t
      invariant 8 <= s <= t && n0 == WithFives(s, 256 * quotient)
    {
      var product := FifthOf(quotient);
      if product > 0x33333333 { break; }
      quotient := product;
      s := s + 1;
    }
    FinishHigh(n0, quotient, s, t);
    n := quotient / Pow(2, s - 8);
  }

  /** One exit of the cascade: `(remainder >> k) + quotient * 10^(8-k)`. */
  method Reassembled(ghost n0: U64, quotient: U32, rem: U32, k: nat, ghost t: nat) returns (n: U64, s: nat)
    requires n0 > 0 && k <= 7 && n0 == 100000000 * quotient + Pow(5, k) * rem
    requires k <= t <= 16 && t <= Ctz(n0) && (t < 16 ==> t == Ctz(n0))
    requires k == t || rem % 5 != 0
    ensures s == k && ZerosRemoved(n0, n, k, 16)
  {
    LeaveCascade(n0, quotient, rem, k, t);
    var wide := rem / Pow(2, k) + quotient * Pow(10, 8 - k);
    NotLarger(n0, wide, Pow(10, k));
    n, s := wide, k;
  }

  lemma NotLarger(n0: nat, x: int, p: nat)
    requires n0 > 0 && n0 == x * p
    ensures 0 <= x <= n0
  {
    NonNegativeFactor(n0, p, x);
    MulMonotone(1, p, x);
  }

  lemma NothingToRemove(n0: nat, quotient: nat, low: nat, t: nat)
    requires n0 > 0 && n0 == 100000000 * quotient + low && t <= 16 && t <= Ctz(n0) && (t < 16 ==> t == Ctz(n0))
    requires t == 0 || low % 5 != 0
    ensures ZerosRemoved(n0, n0, 0, 16)
  {
    assert Pow(5, 0) == 1 && Pow(2, 0) == 1 && Pow(10, 8) == 100000000;
    LeaveCascade(n0, quotient, low, 0, t);
  }

  /** The cascade for the other numbers: up to seven zeros, read off the low eight digits. */
  method DivideLowDigits(n0: U64, quotient: U32, low: U32, t: nat) returns (n: U64, s: nat)
    requires 0 < n0 && quotient < 1_000_000_000 && n0 == 100000000 * quotient + low
    requires t <= 16 && t <= Ctz(n0) && (t < 16 ==> t == Ctz(n0))
    requires t >= 8 ==> n0 % 100000000 != 0
    ensures ZerosRemoved(n0, n, s, 16)
  {
    var remainder: U32, product: U32 := low, FifthOf(low);
    if t == 0 || product > 0x33333333 {
      NothingToRemove(n0, quotient, remainder, t);
      return n0, 0;
    }
    remainder, product := product, FifthOf(product);
    if t == 1 || product > 0x33333333 {
      n, s := Reassembled(n0, quotient, remainder, 1, t);
      return;
    }
    n, s := DivideLowDigitsFromTwo(n0, quotient, product, t);
  }

  /** Two zeros have been looked at, and there is a factor 25. */
  method DivideLowDigitsFromTwo(n0: U64, quotient: U32, low: U32, t: nat) returns (n: U64, s: nat)
    requires 0 < n0 && quotient < 1_000_000_000 && n0 == 100000000 * quotient + 25 * low
    requires 2 <= t <= 16 && t <= Ctz(n0) && (t < 16 ==> t == Ctz(n0))
    requires t >= 8 ==> n0 % 100000000 != 0
    ensures ZerosRemoved(n0, n, s, 16)
  {
    var remainder: U32, product: U32 := low, FifthOf(low);
    if t == 2 || product > 0x33333333 {
      n, s := Reassembled(n0, quotient, remainder, 2, t);
      return;
    }
    remainder, product := product, FifthOf(product);
    if t == 3 || product > 0x33333333 {
      n, s := Reassembled(n0, quotient, remainder, 3, t);
      return;
    }
    n, s := DivideLowDigitsFromFour(n0, quotient, product, t);
  }

  /** Four factors 5 have been found. */
  method DivideLowDigitsFromFour(n0: U64, quotient: U32, low: U32, t: nat) returns (n: U64, s: nat)
    requires 0 < n0 && quotient < 1_000_000_000 && n0 == 100000000 * quotient + 625 * low
    requires 4 <= t <= 16 && t <= Ctz(n0) && (t < 16 ==> t == Ctz(n0))
    requires t >= 8 ==> n0 % 100000000 != 0
    ensures ZerosRemoved(n0, n, s, 16)
  {
    var remainder: U32, product: U32 := low, FifthOf(low);
    if t == 4 || product > 0x33333333 {
      n, s := Reassembled(n0, quotient, remainder, 4, t);
      return;
    }
    remainder, product := product, FifthOf(product);
    if t == 5 || product > 0x33333333 {
      n, s := Reassembled(n0, quotient, remainder, 5, t);
      return;
    }
    n, s := DivideLowDigitsFromSix(n0, quotient, product, t);
  }

  /** Six factors 5 have been found. */
  method DivideLowDigitsFromSix(n0: U64, quotient: U32, low: U32, t: nat) returns (n: U64, s: nat)
    requires 0 < n0 && quotient < 1_000_000_000 && n0 == 100000000 * quotient + 15625 * low
    requires 6 <= t <= 16 && t <= Ctz(n0) && (t < 16 ==> t == Ctz(n0))
    requires t >= 8 ==> n0 % 100000000 != 0
    ensures ZerosRemoved(n0, n, s, 16)
  {
    var remainder: U32, product: U32 := low, FifthOf(low);
    if t == 6 || product > 0x33333333 {
      n, s := Reassembled(n0, quotient, remainder, 6, t);
      return;
    }
    remainder, product := product, FifthOf(product);
    if t >= 8 { MoreZeros(n0, quotient, remainder, t); }
    n, s := Reassembled(n0, quotient, remainder, 7, t);
  }
}
