/** The two-word accumulator that stands in for a 128-bit sum. */
module Accumulators {
  import opened Words

  class Accumulator {
    var lower: U64
    var upper: U64

    ghost function Value(): nat
      reads this
    {
      upper * 0x1_0000_0000_0000_0000 + lower
    }

    constructor ()
      ensures Value() == 0
    {
      lower, upper := 0, 0;
    }

    /** `operator+=`: addition modulo 2^128. */
    method Add(n: U64)
      modifies this
      ensures if old(Value()) + n < 0x1_0000_0000_0000_0000_0000_0000_0000_0000
              then Value() == old(Value()) + n
              else Value() == old(Value()) + n - 0x1_0000_0000_0000_0000_0000_0000_0000_0000
    {
      WrappedSum(lower, upper, n);
      lower := (lower + n) % 0x1_0000_0000_0000_0000;
      if lower < n { upper := (upper + 1) % 0x1_0000_0000_0000_0000; }
    }

    /** `operator>>=` by 32. */
    method ShiftWord()
      modifies this
      ensures Value() == old(Value()) / 0x1_0000_0000
    {
      lower := upper * 0x1_0000_0000 % 0x1_0000_0000_0000_0000 + lower / 0x1_0000_0000;
      upper := upper / 0x1_0000_0000;
    }

    /** The conversion to a 32-bit word. */
    function Word(): (w: U32)
      reads this
      ensures w == Value() % 0x1_0000_0000
    {
      lower % 0x1_0000_0000
    }
  }
}
