/** Floating-point numbers as their bits. */
module FloatBits {
  import opened Words

  /** f * 2^e, and whether the predecessor is closer than the successor. */
  datatype Decoded = Decoded(f: nat, e: int, closer: bool)

  /** `fp::assign` for a non-negative number with the given significand width and exponent bias. */
  function Decode(u: nat, width: nat, bias: int): (r: Decoded) {
    PowPositive(2, width);
    var implicitBit := Pow(2, width);
    FromFields(u / implicitBit, u % implicitBit, implicitBit, bias + width)
  }

  /** The same from the biased exponent and the fraction field. */
  function FromFields(biased: nat, fraction: nat, implicitBit: nat, offset: int): Decoded {
    Decoded(if biased != 0 then fraction + implicitBit else fraction,
            (if biased != 0 then biased else 1) - offset,
            fraction == 0 && biased > 1)
  }

  /** Of a float or a double. */
  function DecodeBits(u: nat, binary32: bool): Decoded { if binary32 then Decode(u, 23, 127) else Decode(u, 52, 1023) }

  /** Neighbouring numbers: the successor is one unit 2^e above; the predecessor is one unit below, or half a unit
      when it is closer. */
  lemma Neighbours(u: nat, width: nat, bias: int)
    requires u > 0 && width > 0
    ensures var v, below, above := Decode(u, width, bias), Decode(u - 1, width, bias), Decode(u + 1, width, bias);
            && (if v.closer then below.e == v.e - 1 && 2 * v.f == below.f + 1
                else below.e == v.e && v.f == below.f + 1)
            && ((above.e == v.e && above.f == v.f + 1) || (above.e == v.e + 1 && 2 * above.f == v.f + 1))
  {
    var b := Pow(2, width);
    PowPositive(2, width - 1);
    assert b == 2 * Pow(2, width - 1);
    NextFields(u - 1, b);
    NextFields(u, b);
  }

  /** Counting up by one moves the fraction, or wraps it and moves the exponent. */
  lemma NextFields(u: nat, b: nat)
    requires b > 0
    ensures u % b < b
    ensures if u % b == b - 1 then (u + 1) / b == u / b + 1 && (u + 1) % b == 0
            else (u + 1) / b == u / b && (u + 1) % b == u % b + 1
  {
    var q, r := u / b, u % b;
    if r == b - 1 {
      assert b * (q + 1) == b * q + b;
      DivUnique(u + 1, b, q + 1, 0);
    } else {
      DivUnique(u + 1, b, q, r + 1);
    }
  }

  lemma PowersOfWidth()
    ensures Pow(2, 23) == 0x80_0000 && Pow(2, 52) == 0x10_0000_0000_0000
  {
    assert Pow(2, 7) == 0x80 && Pow(2, 8) == 0x100 && Pow(2, 10) == 0x400;
    PowAdd(2, 8, 8); PowAdd(2, 16, 7); PowAdd(2, 16, 10);
    PowAdd(2, 26, 26);
  }
}
