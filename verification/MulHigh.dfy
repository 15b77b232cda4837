/** The multiply-high helpers of format-inl.h in their portable, four-product form. */
module MulHigh {
  import opened Words

  /** A 128-bit number as two words. */
  datatype U128 = U128(high: U64, low: U64)

  function Value(w: U128): nat {
    w.high * 0x1_0000_0000_0000_0000 + w.low
  }

  /** The four 32 x 32 partial products of two 64-bit words add up to the full product. */
  lemma SchoolbookProduct(x: U64, y: U64, a: U32, b: U32, c: U32, d: U32)
    requires a == x / 0x1_0000_0000 && b == x % 0x1_0000_0000
    requires c == y / 0x1_0000_0000 && d == y % 0x1_0000_0000
    ensures x * y == a * c * 0x1_0000_0000_0000_0000 + (a * d + b * c) * 0x1_0000_0000 + b * d
    ensures a * c <= 0xffff_fffe_0000_0001 && a * d <= 0xffff_fffe_0000_0001
    ensures b * c <= 0xffff_fffe_0000_0001 && b * d <= 0xffff_fffe_0000_0001
    ensures 0 <= a * c && 0 <= a * d && 0 <= b * c && 0 <= b * d
  {
    assert x == a * 0x1_0000_0000 + b && y == c * 0x1_0000_0000 + d;
    assert x * y == a * 0x1_0000_0000 * y + b * y;
    assert a * 0x1_0000_0000 * y == a * 0x1_0000_0000 * (c * 0x1_0000_0000) + a * 0x1_0000_0000 * d;
    assert b * y == b * (c * 0x1_0000_0000) + b * d;
    WordProduct(a, c); WordProduct(a, d); WordProduct(b, c); WordProduct(b, d);
  }

  lemma ProductMonotone(a: nat, b: nat, x: nat, y: nat)
    requires a <= x && b <= y
    ensures 0 <= a * b <= x * y
  {
    assert 0 <= (x - a) * y && 0 <= a * (y - b);
    assert x * y - a * b == (x - a) * y + a * (y - b);
  }

  /** The product is at most (2^64 - 1)^2, so its high word leaves room for a carry. */
  lemma HighWordRoom(x: U64, y: U64)
    ensures 0 <= x * y <= 0xffff_ffff_ffff_fffe_0000_0000_0000_0001
  {
    ProductMonotone(x, y, 0xffff_ffff_ffff_ffff, 0xffff_ffff_ffff_ffff);
  }

  /** `multiply`: the product divided by 2^64, rounded to nearest with ties going up. */
  function Multiply(lhs: U64, rhs: U64): (f: U64)
    ensures f == (lhs * rhs + 0x8000_0000_0000_0000) / 0x1_0000_0000_0000_0000
  {
    var a, b := lhs / 0x1_0000_0000, lhs % 0x1_0000_0000;
    var c, d := rhs / 0x1_0000_0000, rhs % 0x1_0000_0000;
    SchoolbookProduct(lhs, rhs, a, b, c, d); HighWordRoom(lhs, rhs);
    var ac: U64, bc: U64, ad: U64, bd: U64 := a * c, b * c, a * d, b * d;
    var mid: U64 := bd / 0x1_0000_0000 + ad % 0x1_0000_0000 + bc % 0x1_0000_0000 + 0x8000_0000;
    ac + ad / 0x1_0000_0000 + bc / 0x1_0000_0000 + mid / 0x1_0000_0000
  }

  /** `multiply` where the compiler has a 128-bit type: add the top bit of the low word to the high word. */
  function MultiplyWide(lhs: U64, rhs: U64): (f: int) {
    var product := lhs * rhs;
    var f := product / 0x1_0000_0000_0000_0000;
    if product % 0x1_0000_0000_0000_0000 / 0x8000_0000_0000_0000 % 2 != 0 then f + 1 else f
  }

  lemma MultiplyFormsAgree(lhs: U64, rhs: U64)
    ensures Multiply(lhs, rhs) == MultiplyWide(lhs, rhs)
  {
    HighWordRoom(lhs, rhs);
  }

  /** `umul128`: the full product. */
  function Umul128(x: U64, y: U64): (p: U128)
    ensures Value(p) == x * y
  {
    var a, b := x / 0x1_0000_0000, x % 0x1_0000_0000;
    var c, d := y / 0x1_0000_0000, y % 0x1_0000_0000;
    SchoolbookProduct(x, y, a, b, c, d); HighWordRoom(x, y);
    var ac: U64, bc: U64, ad: U64, bd: U64 := a * c, b * c, a * d, b * d;
    Recombine(ac, bc, ad, bd);
    var intermediate: U64 := bd / 0x1_0000_0000 + ad % 0x1_0000_0000 + bc % 0x1_0000_0000;
    U128(ac + intermediate / 0x1_0000_0000 + ad / 0x1_0000_0000 + bc / 0x1_0000_0000,
         intermediate * 0x1_0000_0000 % 0x1_0000_0000_0000_0000 + bd % 0x1_0000_0000)
  }

  /** Carrying the middle sum: no term of the high word is lost and the low word does not overflow. */
  lemma Recombine(ac: int, bc: U64, ad: U64, bd: U64)
    ensures var middle := bd / 0x1_0000_0000 + ad % 0x1_0000_0000 + bc % 0x1_0000_0000;
            var high := ac + middle / 0x1_0000_0000 + ad / 0x1_0000_0000 + bc / 0x1_0000_0000;
            var low := middle * 0x1_0000_0000 % 0x1_0000_0000_0000_0000 + bd % 0x1_0000_0000;
            && 0 <= low < 0x1_0000_0000_0000_0000
            && high * 0x1_0000_0000_0000_0000 + low
               == ac * 0x1_0000_0000_0000_0000 + (ad + bc) * 0x1_0000_0000 + bd
  {
    var middle := bd / 0x1_0000_0000 + ad % 0x1_0000_0000 + bc % 0x1_0000_0000;
    assert middle * 0x1_0000_0000 % 0x1_0000_0000_0000_0000 == middle % 0x1_0000_0000 * 0x1_0000_0000;
  }

  lemma HighWord(w: U128)
    ensures w.high == Value(w) / 0x1_0000_0000_0000_0000
  {}

  /** `umul128_upper64`: the upper half of the same product. */
  function Umul128Upper64(x: U64, y: U64): (h: U64)
    ensures h == x * y / 0x1_0000_0000_0000_0000
  {
    HighWord(Umul128(x, y));
    Umul128(x, y).high
  }

  /** `uint128_wrapper::operator+=`: the carry is detected by the wrapped sum being smaller. */
  function AddWord(w: U128, n: U64): (r: U128) {
    var sum: U64 := (w.low + n) % 0x1_0000_0000_0000_0000;
    U128((w.high + (if sum < w.low then 1 else 0)) % 0x1_0000_0000_0000_0000, sum)
  }

  lemma AddWordExact(w: U128, n: U64)
    ensures Value(AddWord(w, n)) == (Value(w) + n) % 0x1_0000_0000_0000_0000_0000_0000_0000_0000
  {
    WrappedSum(n, w.high, w.low);
    assert n + w.low == w.low + n;
    assert w.high * 0x1_0000_0000_0000_0000 + n + w.low == Value(w) + n;
  }

  /** `umul192_upper64`: the upper 64 bits of a 64 x 128 product. */
  function Umul192Upper64(x: U64, y: U128): (h: U64) {
    AddWord(Umul128(x, y.high), Umul128Upper64(x, y.low)).high
  }

  lemma Umul192Upper64Exact(x: U64, y: U128)
    ensures Umul192Upper64(x, y) == x * Value(y) / 0x1_0000_0000_0000_0000_0000_0000_0000_0000
  {
    var p, q, total := x * y.high, x * y.low, x * Value(y);
    assert p <= 0xffff_ffff_ffff_fffe_0000_0000_0000_0001 by { HighWordRoom(x, y.high); }
    assert q <= 0xffff_ffff_ffff_fffe_0000_0000_0000_0001 by { HighWordRoom(x, y.low); }
    assert total == p * 0x1_0000_0000_0000_0000 + q by { SplitProduct(x, y); }
    AddUpper(Umul128(x, y.high), Umul128Upper64(x, y.low), p, q);
  }

  lemma AddUpper(full: U128, carry: U64, p: nat, q: nat)
    requires p <= 0xffff_ffff_ffff_fffe_0000_0000_0000_0001 && q <= 0xffff_ffff_ffff_fffe_0000_0000_0000_0001
    requires Value(full) == p && carry == q / 0x1_0000_0000_0000_0000
    ensures AddWord(full, carry).high
            == (p * 0x1_0000_0000_0000_0000 + q) / 0x1_0000_0000_0000_0000_0000_0000_0000_0000
  {
    Upper192(p, q);
    var sum := AddWord(full, carry);
    assert Value(sum) == p + q / 0x1_0000_0000_0000_0000 by {
      AddWordExact(full, carry);
      SmallModulus(p + q / 0x1_0000_0000_0000_0000);
    }
    HighWord(sum);
  }

  lemma SmallModulus(n: nat)
    requires n < 0x1_0000_0000_0000_0000_0000_0000_0000_0000
    ensures n % 0x1_0000_0000_0000_0000_0000_0000_0000_0000 == n
  {}

  lemma SplitProduct(x: U64, y: U128)
    ensures x * Value(y) == x * y.high * 0x1_0000_0000_0000_0000 + x * y.low
  {}

  lemma Upper192(p: nat, q: nat)
    requires p <= 0xffff_ffff_ffff_fffe_0000_0000_0000_0001 && q <= 0xffff_ffff_ffff_fffe_0000_0000_0000_0001
    ensures p + q / 0x1_0000_0000_0000_0000 < 0x1_0000_0000_0000_0000_0000_0000_0000_0000
    ensures (p + q / 0x1_0000_0000_0000_0000) / 0x1_0000_0000_0000_0000
            == (p * 0x1_0000_0000_0000_0000 + q) / 0x1_0000_0000_0000_0000_0000_0000_0000_0000
  {}

  lemma Middle192(p: nat, q: nat)
    ensures (p % 0x1_0000_0000_0000_0000 + q / 0x1_0000_0000_0000_0000) % 0x1_0000_0000_0000_0000
            == (p * 0x1_0000_0000_0000_0000 + q) / 0x1_0000_0000_0000_0000 % 0x1_0000_0000_0000_0000
  {}

  /** `umul192_middle64`: bits 64..127 of the same product, through wrapping 64-bit arithmetic. */
  function Umul192Middle64(x: U64, y: U128): (m: U64) {
    var g01: U64 := x * y.high % 0x1_0000_0000_0000_0000;
    var g10 := Umul128Upper64(x, y.low);
    (g01 + g10) % 0x1_0000_0000_0000_0000
  }

  lemma Umul192Middle64Exact(x: U64, y: U128)
    ensures Umul192Middle64(x, y) == x * Value(y) / 0x1_0000_0000_0000_0000 % 0x1_0000_0000_0000_0000
  {
    var p, q := x * y.high, x * y.low;
    assert p >= 0 by { HighWordRoom(x, y.high); }
    assert q >= 0 by { HighWordRoom(x, y.low); }
    SplitProduct(x, y);
    Middle192(p, q);
  }
}
