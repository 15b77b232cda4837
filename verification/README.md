# Verification of the robot repository's core logic

A Dafny model of the parts of this repository that are hardest to get right, with proofs of what they promise.

| files | component |
|---|---|
| Words, MulHigh, TrailingZeros | multiply-high helpers and trailing-zero removal of the formatting library |
| Bigits, Convolution, Accumulator, BigInts | the arbitrary-precision integer `bigint` |
| FloatBits, Decimals, RoundingInterval, RealScale, DecimalPromise, DigitGeneration, FallbackFormat | `fallback_format`, the exact decimal conversion built on it |
| CircularQ, BlockingQueue, ThreadPool | the asynchronous log queue and the shutdown of its workers |
| PackageOrder | the package ordering of the generated setup script |
| RotatingFiles | the rotating log file sink |
| DeadMan, Pid, Odometry, Magnetometer, MotorControl | the motor firmware: watchdog, calibration, control step, loop |
| LidarLines | the lidar driver's line buffering and parsing |

Objects that the code updates in place are classes with the same fields; `bigits_` and `_line_buf` are sequence
fields, the ring buffer keeps its array. Specifications are functions and predicates on values, and the theorems over
whole runs are about those. Machine words are integers with the wrap-around written out. Floats of the firmware and of
the lidar driver are real numbers (the driver's with the three values that are not numbers); in the formatting library
a float is its bits. Time is an unbounded number that the firmware sees modulo 2^32. Threads are interleaved atomic
steps: a region under the mutex is one step, a notification another.

Decimal conversion follows section 4.3.1 (roundTiesToEven) and section 5.12.2 of IEEE 754-2019.

## Where the code differs from what one might expect

- `compare` takes equal values for different ones when the left operand has the larger exponent (`CompareAtLeast`,
  `CompareMissesEquality`). `divmod_assign` inherits this; `fallback_format` never meets the case with its denominator
  (`NotHitByInteger`, `NotHitByFraction`).
- With `lower` it does: a remainder equal to it compares as larger once the numerator has the smaller exponent. The
  shortest mode therefore writes the shortest, nearest decimal (even on ties) if and only if it is not the case that
  the significand is even, e >= 0, e/32 > exp10/32 and that decimal is the closed end value - M- (`Format`,
  `MissesInReals`). The double 3.584e25 is such a case (`MissedDouble`).
- `subtract_aligned` does not advance the index while it propagates the borrow (`SubtractAligned` has the exact
  condition under which that is right, `BorrowIsLost` operands for which it is not).
- In the shortest mode the overflow character `:` is written, as the only character, if and only if value is at least
  9 * 10^exp10, what reads as the value reaches 10^(exp10+1), and 9 * 10^exp10 is below the lower end or not nearer
  (`Format`, `OverflowInReals`). The double before 1e23 is such a case (`OverflowingDouble`).
- The only call of `fallback_format` in this repository (format-inl.h:2379) comes after negative precisions have gone
  to Dragonbox (format-inl.h:2351-2361), so no caller here asks for the shortest mode of the two points above.
- The rotating sink opened with `rotate_on_open` keeps the old file's size in `current_size_`, so its first file may be
  rotated early; the size limit still holds.
- The watchdog's unsigned difference comes round when control steps are 2^32 - 1000 ms apart or more
  (`GapLimitIsTight`).
- As long as no command comes, losing the agent stops the wheels for good if and only if no magnetometer calibration
  is under way or it is due to end (`AgentLossHolds`, `LossLastsUntilCommand`, `CalibrationOutlivesAgent`).
- The odometry's angular speed has the opposite sign of the turn rate that sets the targets (`ReportMirrorsTurn`).
- `config.h` declares a feed-forward gain of 0.8 that nothing uses; the controllers run with the constructor's 1.5.
- A lidar line with a non-finite angle, or an end of scan with frequency 0, raises an exception that no handler in the
  driver catches (`DiesExactly`, at the lines of `NaNKills` and `ZeroFrequencyKills`); a NaN distance passes the range
  filter (`RangesAreFiltered`).

## Model

| member | source | states |
|---|---|---|
| `MulHigh.SchoolbookProduct` | ros2_ws/installfff/micro_ros_agent/include/spdlog/fmt/bundled/format-inl.h:264-268 | the four 32-bit partial products weigh up to the whole 64 x 64 product, and none exceeds 64 bits |
| `MulHigh.Multiply` | ros2_ws/installfff/micro_ros_agent/include/spdlog/fmt/bundled/format-inl.h:258-273 | the four-product form is floor((x*y + 2^63) / 2^64) for all words |
| `MulHigh.MultiplyFormsAgree` | ros2_ws/installfff/micro_ros_agent/include/spdlog/fmt/bundled/format-inl.h:259-262 | the 128-bit form with its bit-63 test gives the same word |
| `MulHigh.Umul128` | ros2_ws/installfff/micro_ros_agent/include/spdlog/fmt/bundled/format-inl.h:828-853 | the portable form is the whole 128-bit product |
| `MulHigh.Umul128Upper64` | ros2_ws/installfff/micro_ros_agent/include/spdlog/fmt/bundled/format-inl.h:856-865 | it is the upper word of the product |
| `MulHigh.AddWordExact` | ros2_ws/installfff/micro_ros_agent/include/spdlog/fmt/bundled/format-inl.h:870-871 | adding a word with the carry taken from the wrapped low word is addition modulo 2^128 |
| `MulHigh.Umul192Upper64Exact` | ros2_ws/installfff/micro_ros_agent/include/spdlog/fmt/bundled/format-inl.h:869-873 | it is floor(x*y / 2^128) for a 128-bit y |
| `MulHigh.Umul192Middle64Exact` | ros2_ws/installfff/micro_ros_agent/include/spdlog/fmt/bundled/format-inl.h:883-887 | it is bits 64..127 of the 192-bit product, though every step wraps |
| `TrailingZeros.InverseTest` | ros2_ws/installfff/micro_ros_agent/include/spdlog/fmt/bundled/format-inl.h:946-963 | for any modulus and any divisor with an inverse: the wrapped product with the inverse is at most floor((w-1)/d) exactly for multiples of d, and is then the quotient |
| `TrailingZeros.Table32` | ros2_ws/installfff/micro_ros_agent/include/spdlog/fmt/bundled/format-inl.h:955-961 | each of the 11 table entries is the inverse of 5^exp modulo 2^32 and floor((2^32-1)/5^exp) |
| `TrailingZeros.Table64` | ros2_ws/installfff/micro_ros_agent/include/spdlog/fmt/bundled/format-inl.h:966-990 | the same for the 24 entries modulo 2^64 |
| `TrailingZeros.DivisibleIn32Exact` | ros2_ws/installfff/micro_ros_agent/include/spdlog/fmt/bundled/format-inl.h:953-963 | the 32-bit test answers exactly whether 5^exp divides x |
| `TrailingZeros.DivisibleIn64Exact` | ros2_ws/installfff/micro_ros_agent/include/spdlog/fmt/bundled/format-inl.h:964-992 | the 64-bit test answers exactly whether 5^exp divides x |
| `TrailingZeros.Finish` | ros2_ws/installfff/micro_ros_agent/include/spdlog/fmt/bundled/format-inl.h:1942-1943 | dividing out s fives with wrapping products and shifting by s leaves n0 / 10^s, and no more zeros when the fives or the twos ran out |
| `TrailingZeros.RemoveTrailingZeros32` | ros2_ws/installfff/micro_ros_agent/include/spdlog/fmt/bundled/format-inl.h:1919-1944 | n0 == n * 10^s with s the most the limit of 7 allows |
| `TrailingZeros.HundredMillionTest` | ros2_ws/installfff/micro_ros_agent/include/spdlog/fmt/bundled/format-inl.h:1961-1969 | a product with the inverse of 5^8 decides divisibility by 10^8, and its upper bits are the quotient |
| `TrailingZeros.DivideHighDigits` | ros2_ws/installfff/micro_ros_agent/include/spdlog/fmt/bundled/format-inl.h:1969-1978 | for multiples of 10^8: the cascade on the quotient removes all zeros up to the limit |
| `TrailingZeros.DivideLowDigits` | ros2_ws/installfff/micro_ros_agent/include/spdlog/fmt/bundled/format-inl.h:1983-2028 | for other numbers: the eight-step cascade on the low eight digits, with each early exit, removes all zeros and puts the quotient back in its place |
| `TrailingZeros.RemoveTrailingZeros64` | ros2_ws/installfff/micro_ros_agent/include/spdlog/fmt/bundled/format-inl.h:1947-2029 | for 0 < n0 < 10^17: n0 == n * 10^s and 10 does not divide n |
| `Convolution.ColumnsAreProduct` | ros2_ws/installfff/micro_ros_agent/include/spdlog/fmt/bundled/format-inl.h:548-565 | the weighted column sums of two digit strings are the product of their values |
| `Accumulators.Accumulator.Add` | ros2_ws/installfff/micro_ros_agent/include/spdlog/fmt/bundled/format-inl.h:351-354 | the two-word accumulator adds a word modulo 2^128, exactly as a 128-bit integer does |
| `Accumulators.Accumulator.ShiftWord` | ros2_ws/installfff/micro_ros_agent/include/spdlog/fmt/bundled/format-inl.h:355-360 | it divides the sum by 2^32 |
| `Accumulators.Accumulator.Word` | ros2_ws/installfff/micro_ros_agent/include/spdlog/fmt/bundled/format-inl.h:349 | it is the sum modulo 2^32 |
| `BigInts.BigInt.Assign` | ros2_ws/installfff/micro_ros_agent/include/spdlog/fmt/bundled/format-inl.h:440-446 | a copy: same bigits, same exponent |
| `BigInts.BigInt.AssignWord` | ros2_ws/installfff/micro_ros_agent/include/spdlog/fmt/bundled/format-inl.h:448-456 | the value is the word, without a leading zero bigit unless it is 0 |
| `BigInts.BigInt.MultiplyWord` | ros2_ws/installfff/micro_ros_agent/include/spdlog/fmt/bundled/format-inl.h:404-413 | the value is multiplied by a 32-bit word; the top bigit stays non-zero |
| `BigInts.BigInt.MultiplyDouble` | ros2_ws/installfff/micro_ros_agent/include/spdlog/fmt/bundled/format-inl.h:415-430 | the value is multiplied by a 64-bit word with every carry in 64 bits |
| `BigInts.BigInt.ShiftLeft` | ros2_ws/installfff/micro_ros_agent/include/spdlog/fmt/bundled/format-inl.h:460-473 | the value is multiplied by 2^shift, and the exponent takes the whole words |
| `BigInts.BigInt.SubtractBigits` | ros2_ws/installfff/micro_ros_agent/include/spdlog/fmt/bundled/format-inl.h:380-384 | one wrapping 64-bit difference: new bigit minus 2^32 times the new borrow is old bigit minus other minus borrow |
| `BigInts.BigInt.RemoveLeadingZeros` | ros2_ws/installfff/micro_ros_agent/include/spdlog/fmt/bundled/format-inl.h:386-390 | the value stays, at least one bigit stays, and the top one is non-zero unless it is the only one |
| `BigInts.BigInt.SubtractAligned` | ros2_ws/installfff/micro_ros_agent/include/spdlog/fmt/bundled/format-inl.h:393-402 | for all aligned operands with the minuend at least as large: the result is the difference if and only if the borrow is absorbed by the very next bigit, since the borrow loop never advances |
| `BigInts.BorrowIsLost` | ros2_ws/installfff/micro_ros_agent/include/spdlog/fmt/bundled/format-inl.h:400 | concrete operands, 2^64 and 1, whose borrow meets a zero bigit |
| `BigInts.ReadyToSubtract` | ros2_ws/installfff/micro_ros_agent/include/spdlog/fmt/bundled/format-inl.h:590-594 | a dividend at most one bigit longer than the divisor meets that condition |
| `BigInts.BigInt.Align` | ros2_ws/installfff/micro_ros_agent/include/spdlog/fmt/bundled/format-inl.h:572-581 | the backward in-place move keeps the value and lowers the exponent to the other operand's |
| `BigInts.BigInt.DivModAssign` | ros2_ws/installfff/micro_ros_agent/include/spdlog/fmt/bundled/format-inl.h:585-595 | old value == quotient * divisor + remainder, with remainder < divisor except exactly when the dividend equals the divisor and has the larger exponent; the exponent left is the smaller one once something was subtracted; it terminates, for every quotient that fits the `int` it is counted in |
| `BigInts.LongDividend` | ros2_ws/installfff/micro_ros_agent/include/spdlog/fmt/bundled/format-inl.h:585-595 | a dividend two or more bigits longer has a quotient above 2^32, so a quotient that fits an `int` comes from a dividend at most one bigit longer, for which the subtraction is right |
| `BigInts.Compare` | ros2_ws/installfff/micro_ros_agent/include/spdlog/fmt/bundled/format-inl.h:481-495 | the sign of the difference; equal values are told apart by their number of bigits |
| `BigInts.CompareAtLeast` | ros2_ws/installfff/micro_ros_agent/include/spdlog/fmt/bundled/format-inl.h:587 | `compare >= 0` holds if and only if lhs >= rhs and it is not the case that they are equal with lhs.exp larger; that case needs a zero lowest bigit on the right |
| `BigInts.CompareMissesEquality` | ros2_ws/installfff/micro_ros_agent/include/spdlog/fmt/bundled/format-inl.h:493 | concrete operands with equal values for which `compare` returns -1 |
| `BigInts.CompareIsExact` | ros2_ws/installfff/micro_ros_agent/include/spdlog/fmt/bundled/format-inl.h:481-495 | with equal exponents the answer is the sign of the difference |
| `BigInts.AddCompare` | ros2_ws/installfff/micro_ros_agent/include/spdlog/fmt/bundled/format-inl.h:498-519 | the exact sign of lhs1 + lhs2 - rhs for all lengths and exponents, as long as no zero top bigit makes a number look longer than the others; both early exits are sound |
| `BigInts.AddCompareBigits` | ros2_ws/installfff/micro_ros_agent/include/spdlog/fmt/bundled/format-inl.h:507-518 | the loop with its two-unit borrow cut-off gives the exact sign |
| `BigInts.AddLowColumn` | ros2_ws/installfff/micro_ros_agent/include/spdlog/fmt/bundled/format-inl.h:551-554 | the inner loop of the lower half adds exactly the column sum |
| `BigInts.AddHighColumn` | ros2_ws/installfff/micro_ros_agent/include/spdlog/fmt/bundled/format-inl.h:561-562 | the inner loop of the upper half adds exactly the column sum |
| `BigInts.NoCarryLeft` | ros2_ws/installfff/micro_ros_agent/include/spdlog/fmt/bundled/format-inl.h:564-566 | the carry after the last column is zero, so the stored columns are the whole square |
| `BigInts.BigInt.Square` | ros2_ws/installfff/micro_ros_agent/include/spdlog/fmt/bundled/format-inl.h:541-568 | the value is the square of the old value and the exponent doubles |
| `BigInts.BigInt.AssignPow5` | ros2_ws/installfff/micro_ros_agent/include/spdlog/fmt/bundled/format-inl.h:526-537 | square-and-multiply along the bits of the exponent gives 5^exp |
| `BigInts.BigInt.AssignPow10` | ros2_ws/installfff/micro_ros_agent/include/spdlog/fmt/bundled/format-inl.h:522-539 | the value is 10^exp for 0 <= exp < 2^30 |
| `Decimals.RoundHalfEvenIsNearest` | ros2_ws/installfff/micro_ros_agent/include/spdlog/fmt/bundled/format-inl.h:2285-2286 | the quotient-and-remainder rule gives a nearest integer, the even one on a tie |
| `Decimals.NearestEvenIsUnique` | ros2_ws/installfff/micro_ros_agent/include/spdlog/fmt/bundled/format-inl.h:2312-2313 | there is only one such integer |
| `Decimals.CarryKeepsNumber` | ros2_ws/installfff/micro_ros_agent/include/spdlog/fmt/bundled/format-inl.h:2318-2321 | replacing an overflowed digit by 0 and adding 1 to the digit before keeps the number |
| `DigitGeneration.NextDigit` | ros2_ws/installfff/micro_ros_agent/include/spdlog/fmt/bundled/format-inl.h:2274 | one digit: a quotient of at most 9 and the remainder, whatever the exponents of the operands, because an unaligned numerator never equals the denominator; the first non-zero digit aligns the numerator |
| `DigitGeneration.PropagateCarry` | ros2_ws/installfff/micro_ros_agent/include/spdlog/fmt/bundled/format-inl.h:2315-2326 | the carry loop keeps the number; when every digit was 9 it is one place longer |
| `DigitGeneration.FinalDigit` | ros2_ws/installfff/micro_ros_agent/include/spdlog/fmt/bundled/format-inl.h:2311-2330 | the last digit is rounded half to even by the remainder |
| `DigitGeneration.FixedDigits` | ros2_ws/installfff/micro_ros_agent/include/spdlog/fmt/bundled/format-inl.h:2305-2330 | the digits are numerator * 10^(n-1) / denominator rounded half to even, with the place gained by a full carry |
| `DigitGeneration.NoDigits` | ros2_ws/installfff/micro_ros_agent/include/spdlog/fmt/bundled/format-inl.h:2299-2303 | with no digits asked for, 0 or 1 unit of the next place, rounded half to even |
| `DigitGeneration.IsLow` | ros2_ws/installfff/micro_ros_agent/include/spdlog/fmt/bundled/format-inl.h:2275 | true exactly if the remainder is below lower, or equal to it with the same exponent and an even significand |
| `DigitGeneration.IsHigh` | ros2_ws/installfff/micro_ros_agent/include/spdlog/fmt/bundled/format-inl.h:2277 | true exactly if the remainder plus upper passes the denominator (counting the end for an even significand) |
| `RoundingInterval.ChosenIsBest` | ros2_ws/installfff/micro_ros_agent/include/spdlog/fmt/bundled/format-inl.h:2279-2287 | when the lower end is held, the digit chosen is the best number of its length: in the interval, nearest, even on a tie |
| `RoundingInterval.ChosenIsInside` | ros2_ws/installfff/micro_ros_agent/include/spdlog/fmt/bundled/format-inl.h:2279-2287 | held or not, it is in the interval and no number of its length strictly inside is nearer |
| `RoundingInterval.PassedHasNone` | ros2_ws/installfff/micro_ros_agent/include/spdlog/fmt/bundled/format-inl.h:2279 | when the lower end is held and no end is reached, no number of this length is in the interval |
| `RoundingInterval.BestIsUnique` | ros2_ws/installfff/micro_ros_agent/include/spdlog/fmt/bundled/format-inl.h:2284-2286 | there is only one best number of a length |
| `RoundingInterval.ExactIsUnique` | ros2_ws/installfff/micro_ros_agent/include/spdlog/fmt/bundled/format-inl.h:2267-2288 | there is only one shortest, nearest, even-on-ties number in the interval |
| `RoundingInterval.TurnPasses` | ros2_ws/installfff/micro_ros_agent/include/spdlog/fmt/bundled/format-inl.h:2273-2294 | a turn without an end keeps: nothing shorter is in the interval, unless the number wanted is the lower end and that is not held |
| `RoundingInterval.TurnEnds` | ros2_ws/installfff/micro_ros_agent/include/spdlog/fmt/bundled/format-inl.h:2279-2291 | the turn that ends leaves the number wanted if and only if it was not missed in that way |
| `DigitGeneration.FirstNine` | ros2_ws/installfff/micro_ros_agent/include/spdlog/fmt/bundled/format-inl.h:2274-2288 | the first digit overflows exactly when it is 9, the upper end is reached, and it is rounded up |
| `DigitGeneration.DigitOrEnd` | ros2_ws/installfff/micro_ros_agent/include/spdlog/fmt/bundled/format-inl.h:2274-2288 | one turn keeps the search invariant, exponents included, or ends with all that is promised of the digits |
| `DigitGeneration.ShortestDigits` | ros2_ws/installfff/micro_ros_agent/include/spdlog/fmt/bundled/format-inl.h:2269-2295 | the loop terminates because lower grows tenfold below the denominator; its digits are the number wanted if and only if that is not the unheld lower end; the overflow character is written, alone, if and only if the first digit overflows; otherwise all are digits |
| `FloatBits.Neighbours` | ros2_ws/installfff/micro_ros_agent/include/spdlog/fmt/bundled/format-inl.h:206-230 | the decoded significand and exponent step to those of the neighbouring floats; the flag says exactly when the gap below is half as wide |
| `DecimalPromise.BitsAreNumber` | ros2_ws/installfff/micro_ros_agent/include/spdlog/fmt/bundled/format-inl.h:215-228 | for both formats: the bits stand for (1 + fraction / 2^w) * 2^(biased - bias), w = 23 and bias = 127 or w = 52 and bias = 1023, without the 1 and with exponent 1 - bias when biased is 0; the predecessor is closer exactly when the fraction is 0 and biased above 1 |
| `DecimalPromise.OneInBits` | ros2_ws/installfff/micro_ros_agent/include/spdlog/fmt/bundled/format-inl.h:2229-2230 | 0x3f800000 is the float 1, 0x3ff0000000000000 the double 1 |
| `DecimalPromise.HalfGaps` | ros2_ws/installfff/micro_ros_agent/include/spdlog/fmt/bundled/format-inl.h:2221-2231 | the interval ends are half the gaps to the two neighbouring floats |
| `DecimalPromise.ReadsBackIsNearest` | ros2_ws/installfff/micro_ros_agent/include/spdlog/fmt/bundled/format-inl.h:2221-2231 | a real number is strictly inside the interval if and only if it is nearer to the float than to both neighbours, and inside or on an end if and only if it is at least as near |
| `FallbackFormat.SetUp` | ros2_ws/installfff/micro_ros_agent/include/spdlog/fmt/bundled/format-inl.h:2231-2266 | all three branches: numerator/denominator * 10^exp10 is the value, lower and upper are the half gaps on the same scale, and the representation facts the digit loops need hold, with the exponents each branch leaves |
| `FallbackFormat.PlaceBounds` | ros2_ws/installfff/micro_ros_agent/include/spdlog/fmt/bundled/format-inl.h:2233-2256 | for a number below 10^(exp10+1), exp10 is not negative in the first branch, and the second never stores the numerator above the denominator |
| `FallbackFormat.NotHitByInteger` | ros2_ws/installfff/micro_ros_agent/include/spdlog/fmt/bundled/format-inl.h:2233-2244 | first branch: while the numerator has the larger exponent it never equals the denominator at any digit |
| `FallbackFormat.NotHitByFraction` | ros2_ws/installfff/micro_ros_agent/include/spdlog/fmt/bundled/format-inl.h:2245-2255 | second branch: neither does it, because 5 does not divide a power of two |
| `DecimalPromise.ScaledValue` | ros2_ws/installfff/micro_ros_agent/include/spdlog/fmt/bundled/format-inl.h:2266 | the integers of the set-up stand for the real value and half gaps |
| `DecimalPromise.RoundedInReals` | ros2_ws/installfff/micro_ros_agent/include/spdlog/fmt/bundled/format-inl.h:2297-2331 | rounding the integer fraction half to even rounds the real number to the nearest unit, ties to even |
| `DecimalPromise.ShortestInReals` | ros2_ws/installfff/micro_ros_agent/include/spdlog/fmt/bundled/format-inl.h:2267-2291 | the integer conditions on the digits are the conditions on the real interval |
| `DecimalPromise.ExactInReals` | ros2_ws/installfff/micro_ros_agent/include/spdlog/fmt/bundled/format-inl.h:2266-2291 | the number wanted in integers is the decimal wanted in real numbers: nothing shorter reads as the float, and of that length it is the nearest, even on a tie |
| `DecimalPromise.ShortestIsUnique` | ros2_ws/installfff/micro_ros_agent/include/spdlog/fmt/bundled/format-inl.h:2266-2291 | for every float and place there is only one such decimal |
| `DecimalPromise.MissesInReals` | ros2_ws/installfff/micro_ros_agent/include/spdlog/fmt/bundled/format-inl.h:2275 | missing it is a condition on the float: even significand, e >= 0, e/32 above exp10/32, and the decimal wanted is value - M- |
| `DecimalPromise.EndIsBest` | ros2_ws/installfff/micro_ros_agent/include/spdlog/fmt/bundled/format-inl.h:2275-2286 | value - M- is the best decimal of its length exactly when the place is wider than M- doubled, or as wide and the decimal is even |
| `DecimalPromise.MissedDouble` | ros2_ws/installfff/micro_ros_agent/include/spdlog/fmt/bundled/format-inl.h:2275 | it happens: the double 3.584e25 with exp10 = 25, where 3584 is wanted |
| `DecimalPromise.OverflowInReals` | ros2_ws/installfff/micro_ros_agent/include/spdlog/fmt/bundled/format-inl.h:2278-2288 | overflowing is a condition on value, M-, M+ and exp10 |
| `DecimalPromise.NarrowOverflow` | ros2_ws/installfff/micro_ros_agent/include/spdlog/fmt/bundled/format-inl.h:2278-2288 | for an interval narrower than 10^exp10 it is that value + M+ reaches the next power of ten |
| `DecimalPromise.OverflowingDouble` | ros2_ws/installfff/micro_ros_agent/include/spdlog/fmt/bundled/format-inl.h:2278-2281 | it happens: the double before 1e23 with exp10 = 22 |
| `DecimalPromise.WideWithoutOverflow` | ros2_ws/installfff/micro_ros_agent/include/spdlog/fmt/bundled/format-inl.h:2278-2288 | reaching the power is not enough: 8 with M+ = 4 |
| `FallbackFormat.Format` | ros2_ws/installfff/micro_ros_agent/include/spdlog/fmt/bundled/format-inl.h:2216-2331 | for every number below 10^(exp10+1): the given number of digits is correctly rounded to nearest even at its place, including the full carry; without a number, the digits are in the interval, nearest of their length, nothing shorter is strictly inside, they are the decimal wanted if and only if its being value - M- is not missed, and the overflow character is written if and only if the first digit overflows |
| `FallbackFormat.FormatBits` | ros2_ws/installfff/micro_ros_agent/include/spdlog/fmt/bundled/format-inl.h:2229-2331 | the same from the bits of a float or a double, whose value is that of BitsAreNumber; the shortest digits are no further from it than from either neighbour |
| `FallbackFormat.FormatFixed` | ros2_ws/installfff/micro_ros_agent/include/spdlog/fmt/bundled/format-inl.h:2297-2331 | the part with a given number of digits: digits * 10^(final exp10) is the value rounded to a multiple of 10^(exp10 - n + 1) |
| `CircularQueues.CircularQ.constructor` | ros2_ws/installfff/micro_ros_agent/include/spdlog/details/circular_q.h:27-30 | an empty queue of the given capacity |
| `CircularQueues.CircularQ.Disabled` | ros2_ws/installfff/micro_ros_agent/include/spdlog/details/circular_q.h:24-25 | a disabled queue |
| `CircularQueues.CircularQ.MoveFrom` | ros2_ws/installfff/micro_ros_agent/include/spdlog/details/circular_q.h:35-40 | contents and counters move over; the source is left empty and disabled |
| `CircularQueues.CircularQ.PushBack` | ros2_ws/installfff/micro_ros_agent/include/spdlog/details/circular_q.h:49-62 | appends; a full queue drops its oldest item and counts it; a disabled queue ignores the item |
| `CircularQueues.RingPush` | ros2_ws/installfff/micro_ros_agent/include/spdlog/details/circular_q.h:53-60 | storing at the tail and moving on is a push of the bounded queue, wherever the ring wraps |
| `CircularQueues.CircularQ.PopFront` | ros2_ws/installfff/micro_ros_agent/include/spdlog/details/circular_q.h:99-102 | drops the oldest item |
| `CircularQueues.CircularQ.Front` | ros2_ws/installfff/micro_ros_agent/include/spdlog/details/circular_q.h:66-69 | the oldest item |
| `CircularQueues.CircularQ.At` | ros2_ws/installfff/micro_ros_agent/include/spdlog/details/circular_q.h:91-95 | the i-th oldest item, wherever the indices wrap |
| `CircularQueues.CircularQ.Size` | ros2_ws/installfff/micro_ros_agent/include/spdlog/details/circular_q.h:77-87 | the number of stored items, never above the capacity |
| `CircularQueues.CircularQ.Empty` | ros2_ws/installfff/micro_ros_agent/include/spdlog/details/circular_q.h:104-107 | holds exactly when nothing is stored |
| `CircularQueues.CircularQ.Full` | ros2_ws/installfff/micro_ros_agent/include/spdlog/details/circular_q.h:109-117 | holds exactly when an enabled queue is at capacity |
| `BoundedFifo.RunKeepsNewest` | ros2_ws/installfff/micro_ros_agent/include/spdlog/details/circular_q.h:48-122 | over every run of pushes and legal pops: pushes == pops + overruns + held items, and what is held is the newest part of the stream |
| `BoundedFifo.GuardedRunLosesNothing` | ros2_ws/installfff/micro_ros_agent/include/spdlog/details/circular_q.h:109-117 | if every push meets a queue that is not full, nothing is overrun and popped items followed by held items are the whole stream in order |
| `MpmcQueues.MpmcBlockingQueue.EnqueueRegion` | ros2_ws/installfff/micro_ros_agent/include/spdlog/details/mpmc_blocking_q.h:32-40 | the region under the lock on the ring buffer is the step of the thread machine: push when not full, else sleep |
| `MpmcQueues.MpmcBlockingQueue.EnqueueNowaitRegion` | ros2_ws/installfff/micro_ros_agent/include/spdlog/details/mpmc_blocking_q.h:43-50 | the same for the push that overruns |
| `MpmcQueues.MpmcBlockingQueue.DequeueRegion` | ros2_ws/installfff/micro_ros_agent/include/spdlog/details/mpmc_blocking_q.h:54-67 | the same for taking an item, sleeping, or giving up after the timeout; ConsumerAtLock says what that step does |
| `BlockingQueue.StepKeepsWakeups` | ros2_ws/installfff/micro_ros_agent/include/spdlog/details/mpmc_blocking_q.h:32-67 | every step of every thread, barging, overrunning, spurious wake-ups and timeouts included, keeps: while a producer sleeps, free slots <= producers awake + notifies pending, and the mirror for consumers |
| `BlockingQueue.SleepersHaveReason` | ros2_ws/installfff/micro_ros_agent/include/spdlog/details/mpmc_blocking_q.h:32-67 | in every interleaving: once nobody is awake or about to notify, producers sleep only on a full queue and consumers only on an empty one |
| `BlockingQueue.ConsumerAtLock` | ros2_ws/installfff/micro_ros_agent/include/spdlog/details/mpmc_blocking_q.h:54-67 | a consumer takes the front item if there is one; on an empty queue it leaves with nothing exactly when its wait has expired, and waits otherwise |
| `BlockingQueue.ProducerAtLock` | ros2_ws/installfff/micro_ros_agent/include/spdlog/details/mpmc_blocking_q.h:32-50 | a producer waits exactly when it blocks and the queue is full; otherwise its item becomes the last, and only a non-blocking one on a full queue drops the oldest |
| `BlockingQueue.EveryThreadCanMove` | ros2_ws/installfff/micro_ros_agent/include/spdlog/details/mpmc_blocking_q.h:32-67 | whoever is in an operation has a step of its own; a sleeping consumer can time out |
| `BlockingQueue.EmptyHandedMeansTimeout` | ros2_ws/installfff/micro_ros_agent/include/spdlog/details/mpmc_blocking_q.h:58-61 | over every run: a dequeue that returns false finds the queue empty, and its own wait timed out since when it has not moved |
| `BlockingQueue.TimeoutEndsWait` | ros2_ws/installfff/micro_ros_agent/include/spdlog/details/mpmc_blocking_q.h:58-67 | over every run: the next thing a consumer does after its timeout is to take the lock and to leave, with the front item or with nothing when there is none |
| `BlockingQueue.RunHasTrace` | ros2_ws/installfff/micro_ros_agent/include/spdlog/details/mpmc_blocking_q.h:32-67 | every run has the states that these two speak of |
| `BlockingQueue.DeliveredInOrder` | ros2_ws/installfff/micro_ros_agent/include/spdlog/details/mpmc_blocking_q.h:32-67 | over every interleaving: items put in are those handed out, overrun or held, the held ones the newest; without an overrun they are handed out in the order they were put in |
| `ThreadPool.StepKeepsInv` | ros2_ws/installfff/micro_ros_agent/include/spdlog/details/thread_pool-inl.h:38-126 | every step during the shutdown keeps its invariant: messages dequeued and queued are the earlier messages followed by the terminates posted |
| `ThreadPool.LiveBalance` | ros2_ws/installfff/micro_ros_agent/include/spdlog/details/thread_pool-inl.h:42-45 | live workers == terminates still to post + the one in flight + terminates queued |
| `ThreadPool.ShutdownIsGraceful` | ros2_ws/installfff/micro_ros_agent/include/spdlog/details/thread_pool-inl.h:38-53 | every earlier message is dequeued, in order, before any terminate; nothing is overrun; when all workers are gone the queue is empty |
| `ThreadPool.StuckMeansDone` | ros2_ws/installfff/micro_ros_agent/include/spdlog/details/thread_pool-inl.h:47-50 | the only state without a possible step forward is the finished one: no deadlock |
| `ThreadPool.StepMeasure` | ros2_ws/installfff/micro_ros_agent/include/spdlog/details/thread_pool-inl.h:88-126 | every step forward decreases a measure, and a timeout or spurious wake-up adds at most two |
| `ThreadPool.RunIsBounded` | ros2_ws/installfff/micro_ros_agent/include/spdlog/details/thread_pool-inl.h:38-53 | so the steps forward of a run are bounded by its start and its timeouts |
| `ThreadPool.ShutdownOverRuns` | ros2_ws/installfff/micro_ros_agent/include/spdlog/details/thread_pool-inl.h:38-53 | all of this from any start of the destructor over any run |
| `PackageOrder.First` | installfff/_local_setup_util_sh.py:140-141 | the head of the sorted names: a name that precedes every other in the order of BeforeIsAlphabetical |
| `PackageOrder.BeforeIsAlphabetical` | installfff/_local_setup_util_sh.py:140 | a name precedes another if and only if it is a proper prefix of it or has the smaller character where they first differ |
| `PackageOrder.CycleNeverOrdered` | installfff/_local_setup_util_sh.py:133-148 | no member of a cycle can be in a prefix in which dependencies come first |
| `PackageOrder.WalkFindsCycle` | installfff/_local_setup_util_sh.py:136-139 | if nobody in a finite set is free of dependencies in it, there is a cycle |
| `PackageOrder.LongerIsLeast` | installfff/_local_setup_util_sh.py:140-143 | taking the alphabetically first free package keeps the order no later than any topological order |
| `PackageOrder.Packages.RemoveDependency` | installfff/_local_setup_util_sh.py:144-147 | the name leaves every dependency set; nothing else changes |
| `PackageOrder.Packages.OrderPackages` | installfff/_local_setup_util_sh.py:121-148 | returns an order if and only if the graph has no cycle; it is topological, a permutation of the keys, and alphabetically least of all such orders; otherwise the reported set is non-empty, self-depending and has every member of every cycle |
| `PackageOrder.Packages.ReduceCycleSet` | installfff/_local_setup_util_sh.py:151-173 | terminates with the greatest set of packages in which each is a dependency of a member |
| `PackageOrder.Packages.AllDependencies` | installfff/_local_setup_util_sh.py:160-163 | the union of the dependency sets |
| `PackageOrder.Packages.DeleteUndepended` | installfff/_local_setup_util_sh.py:164-167 | exactly the packages nobody depends on go |
| `PackageOrder.CycleIsSelfDepending` | installfff/_local_setup_util_sh.py:151-173 | a cycle is such a set, so no reduction loses a member of it |
| `RotatingNames.SplitByExtension` | ros2_ws/installfff/micro_ros_agent/include/spdlog/details/file_helper-inl.h:124-144 | the two parts concatenate to the name |
| `RotatingNames.SplitsAtExtension` | ros2_ws/installfff/micro_ros_agent/include/spdlog/details/file_helper-inl.h:124-144 | a non-empty stem that does not end in a slash, a dot, and a non-empty tail without dot or slash are cut at that dot |
| `RotatingNames.ExtensionIsCut` | ros2_ws/installfff/micro_ros_agent/include/spdlog/details/file_helper-inl.h:124-144 | every extension is of this kind, and a name without one has no such cut |
| `RotatingNames.IndexedName` | ros2_ws/installfff/micro_ros_agent/include/spdlog/sinks/rotating_file_sink-inl.h:44-54 | the index stands between stem and extension |
| `RotatingNames.DecimalDenotes` | ros2_ws/installfff/micro_ros_agent/include/spdlog/sinks/rotating_file_sink-inl.h:53 | it is written in decimal digits without leading zeros |
| `RotatingNames.NamesAreDistinct` | ros2_ws/installfff/micro_ros_agent/include/spdlog/sinks/rotating_file_sink-inl.h:44-54 | different indices give different file names, for every base name |
| `RotatingFiles.RotatingFileSink.constructor` | ros2_ws/installfff/micro_ros_agent/include/spdlog/sinks/rotating_file_sink-inl.h:27-39 | the invariant holds, with the files found at opening as the start of the log; `current_size_` is the size of file 0 if and only if no rotation took place on opening |
| `RotatingFiles.RotatingFileSink.RenameFile` | ros2_ws/installfff/micro_ros_agent/include/spdlog/sinks/rotating_file_sink-inl.h:123-128 | the target is replaced by the source, or just removed when the renames fail |
| `RotatingFiles.RotatingFileSink.MoveFilesUp` | ros2_ws/installfff/micro_ros_agent/include/spdlog/sinks/rotating_file_sink-inl.h:94-116 | the downward loop moves every file up by one index, over gaps too; it stops at the first target to which a rename fails twice, and only then |
| `RotatingFiles.RotatingFileSink.Rotate` | ros2_ws/installfff/micro_ros_agent/include/spdlog/sinks/rotating_file_sink-inl.h:89-118 | the rotation keeps the invariant whether it succeeds or not; a rename that fails twice leaves file 0 emptied, size 0 and the files below the target where they were |
| `RotatingFiles.RotationKeepsRest` | ros2_ws/installfff/micro_ros_agent/include/spdlog/sinks/rotating_file_sink-inl.h:83-118 | read from the highest index down, a rotation loses the oldest file and only when there are max_files + 1 |
| `RotatingFiles.RotatingFileSink.SinkIt` | ros2_ws/installfff/micro_ros_agent/include/spdlog/sinks/rotating_file_sink-inl.h:64-75 | the message is appended to the newest file or begins a new one, or is lost in a failing rotation; a rotation takes place exactly when the limit is passed; the invariant holds |
| `RotatingFiles.RotatingFileSink.Log` | ros2_ws/installfff/micro_ros_agent/include/spdlog/sinks/rotating_file_sink-inl.h:64-118 | over any run of messages, failing renames included: no index above max_files, and every file is within max_size, or one message, or as it was found at opening. Without a failing rename the sizes of the messages determine the rotations, and the files read back are the newest part of all that was written, all of it before there are max_files + 1 files. `current_size_` is the size of file 0 at the end if and only if it was at the start or a rotation took place |
| `RotatingFiles.RotationKeeps` | ros2_ws/installfff/micro_ros_agent/include/spdlog/sinks/rotating_file_sink-inl.h:89-118 | the invariant over a rotation that stopped anywhere: files are made of whole messages of the log and within the limit |
| `RotatingFiles.WriteKeeps` | ros2_ws/installfff/micro_ros_agent/include/spdlog/sinks/rotating_file_sink-inl.h:70-75 | the invariant over a write within the limit or to a new file |
| `RotatingFiles.OverLimitIsOnePiece` | ros2_ws/installfff/micro_ros_agent/include/spdlog/sinks/rotating_file_sink-inl.h:64-75 | under the invariant a file over the limit is one message, or as it was found |
| `RotatingFiles.NoRotationWhileItFits` | ros2_ws/installfff/micro_ros_agent/include/spdlog/sinks/rotating_file_sink-inl.h:64-75 | a run takes no rotation if and only if it has no messages or all of them fit into the current file |
| `RotatingFiles.NewestInBytes` | ros2_ws/installfff/micro_ros_agent/include/spdlog/sinks/rotating_file_sink-inl.h:83-118 | under the invariant, with no failed rotation, the files in order are a suffix of the bytes logged |
| `DeadMan.ElapsedIsModular` | firmware/src/odometry.cpp:75 | the unsigned difference of two wrapped readings is the true difference modulo 2^32 |
| `DeadMan.EventKeepsWatched` | firmware/src/odometry.cpp:75-98 | every event keeps: targets are zero or the last step came within the timeout of the last tick |
| `DeadMan.DrivenOnlyAfterTick` | firmware/src/odometry.cpp:75-117 | dead-man safety over every run whose steps are less than 2^32 - 1000 ms apart: a step that leaves non-zero targets comes at most 1000 ms after a command or calibration tick of that run |
| `DeadMan.GapLimitIsTight` | firmware/src/odometry.cpp:75-78 | with a gap of exactly 2^32 - 1000 ms it fails: the motors are driven 2^32 ms after the only command |
| `DeadMan.StepKeepsTargets` | firmware/src/odometry.cpp:75-98 | a step zeroes the targets exactly when no tick came in the last 1000 ms or both wheels are within 0.8 rpm of rest, else it keeps them |
| `DeadMan.CommandIsObeyed` | firmware/src/main.cpp:149-164 | with no calibration under way, the first two numbers of an rpm command, or the wheel speeds that make the commanded motion, become the targets |
| `DeadMan.CommandStaysInForce` | firmware/src/odometry.cpp:75-98 | over runs: they stay the targets up to any step more than 1000 ms later, unless another command, a calibration or the loss of the agent intervenes |
| `DeadMan.CalibrationHasTheWheels` | firmware/src/imu.cpp:244-287 | over runs: during a calibration the wheels turn on the spot or stand still whatever is commanded, and its end leaves them still |
| `DeadMan.TargetsMakeMotion` | firmware/src/motors.cpp:57-66 | the wheels at their targets make the commanded forward speed, the second faster than the first by turn rate times wheel base; speeds below 0.01 m/s and rates below 0.05 rad/s count as none |
| `DeadMan.SpinTurnsOnTheSpot` | firmware/src/imu.cpp:249 | the calibration turns at 1 rad/s without moving |
| `DeadMan.SixtyRpm` | firmware/src/odometry.cpp:65-66 | at 60 rpm a wheel covers its circumference in a second |
| `DeadMan.MpsIsProportional` | firmware/src/odometry.cpp:65-66 | and other speeds in proportion |
| `DeadMan.CalibrationIsBounded` | firmware/src/imu.cpp:281-287 | if loop turns are less than 2^32 - 15000 ms apart, no turn that begins 15 s or more after the start leaves the calibration active |
| `DeadMan.AgentLossHolds` | firmware/src/main.cpp:357-377 | losing the agent zeroes the targets, and they are still zero after the next turn of the loop if and only if no calibration is under way or it is due to end |
| `DeadMan.LossLastsUntilCommand` | firmware/src/main.cpp:357-377 | over runs in which no command follows the loss: zero up to the next turn of the loop, after it if and only if no calibration is under way or it is due to end, and then for good |
| `DeadMan.StillnessLasts` | firmware/src/main.cpp:369-377 | with no calibration under way zero targets stay zero over every continuation without a command |
| `DeadMan.CalibrationOutlivesAgent` | firmware/src/main.cpp:357-377 | a run of two turns of the loop, the agent being lost in the first, after which the wheels spin |
| `DeadMan.ReportMirrorsTurn` | firmware/src/odometry.cpp:65-68 | wheels at the targets of a command are reported with its forward speed and the opposite of its turn rate |
| `Pid.PidController.constructor` | firmware/src/pid.cpp:8-9 | a reset controller with the given gains |
| `Pid.PidController.Reset` | firmware/src/pid.cpp:21-25 | no integral, no previous measurement |
| `Pid.PidController.Update` | firmware/src/pid.cpp:27-41 | for any gains the output is within the PWM range and the integral within 300; both are given as functions of the old state, about which the following say what the control law does; nothing changes when no time passes |
| `Pid.OutputFromReset` | firmware/src/pid.cpp:27-41 | the first output is (kp + ki * dt) * error + ff * setpoint, held within 255 |
| `Pid.OutputGrowsWithSetpoint` | firmware/src/pid.cpp:27-41 | for gains not below 0 a larger setpoint never lowers the output |
| `Pid.OutputFallsWithMeasurement` | firmware/src/pid.cpp:27-41 | for gains not below 0 a larger measurement never raises it |
| `Pid.OutputsDiffer` | firmware/src/pid.cpp:33-38 | with equal integrals two outputs within the range differ by kp + kd / dt times the difference of the measurements, by kp alone in the first run |
| `Pid.LaterOutputsDiffer` | firmware/src/pid.cpp:33-38 | from the second update on it is kp + kd / dt |
| `Pid.RepeatedMeasurement` | firmware/src/pid.cpp:33-38 | a measurement that repeats has no derivative |
| `Pid.ConstantErrorAccumulates` | firmware/src/pid.cpp:30-31 | n updates with a constant error accumulate n * error * dt, held within 300 |
| `MotorControl.Drive` | firmware/src/motors.cpp:39-40 | a drive within range, zero exactly in the dead band, else the command itself up to 255 in either direction |
| `MotorControl.DutyFor` | firmware/src/motors.cpp:42-54 | duties in 0..255, at most one channel non-zero, whose difference is the drive with the motor's direction |
| `MotorControl.Kicked` | firmware/src/odometry.cpp:112-113 | the starting drive of 60 in the direction of the command, larger commands unchanged |
| `MotorControl.DriveFor` | firmware/src/odometry.cpp:100-114 | the drive a controller output leads to: within range, in the direction of the output, at least the starting drive under the kickstart |
| `MotorControl.DriveIsOutput` | firmware/src/odometry.cpp:100-114 | the drive is the output less its fraction, 0 below 8; with the kickstart at least 60 in its direction |
| `MotorControl.Controller.KickstartLasts` | firmware/src/odometry.cpp:104-113 | the kickstart lasts 200 ms from the step that began it, however the clock wraps |
| `MotorControl.SpeedEstimator.Measure` | firmware/src/odometry.cpp:21-63 | implausible steps and windows count as nothing, a window moves the filter; whatever the encoders count, the filtered speed stays within 700 rpm and is zero or at least 0.05 |
| `MotorControl.PlausibleStepsCount` | firmware/src/odometry.cpp:28-35 | no step of a wheel at 700 rpm or less is discarded, and what is kept is at most half as much again and one count |
| `MotorControl.WindowReadsSpeed` | firmware/src/odometry.cpp:44-52 | a window reads revolutions per minute of 11 * 18.8 counts each, and 0 beyond 700 |
| `MotorControl.WindowGathers` | firmware/src/odometry.cpp:28-42 | over steps shorter together than 50 ms nothing is measured and all counts are held |
| `MotorControl.WindowMeasuresAverage` | firmware/src/odometry.cpp:28-59 | over the steps of a whole window each wheel is filtered with its own average speed since the last window |
| `MotorControl.FilterConverges` | firmware/src/odometry.cpp:54-63 | each window takes three tenths off the distance to its reading, and a reading that repeats is kept |
| `MotorControl.StandstillIsMeasured` | firmware/src/odometry.cpp:44-63 | a wheel that stops is measured at exactly 0 after 27 windows, whatever was measured before |
| `MotorControl.Controller.CheckCommand` | firmware/src/odometry.cpp:75-98 | targets are those of the machine; a stop is requested exactly when they are zero afterwards, and leaves the motors off |
| `MotorControl.Controller.constructor` | firmware/src/main.cpp:337-349 | motors off, no targets, the watchdog started |
| `MotorControl.Controller.CmdVelCallback` | firmware/src/main.cpp:149-154 | follows the machine: ignored during a calibration, else targets and tick |
| `MotorControl.Controller.RpmCmdCallback` | firmware/src/main.cpp:156-164 | follows the machine: ignored during a calibration or with fewer than two values |
| `MotorControl.Controller.PidConfigCallback` | firmware/src/main.cpp:166-177 | both controllers get the gains and are reset, the gains are stored, targets and outputs are untouched |
| `MotorControl.Controller.CalibrateMagCallback` | firmware/src/main.cpp:179-183 | follows the machine for start and stop |
| `MotorControl.Controller.StartMagCalibration` | firmware/src/imu.cpp:244-254 | active, without samples, spinning, the watchdog restarted |
| `MotorControl.Controller.FinishMagCalibration` | firmware/src/imu.cpp:256-279 | inactive and targets zero; with samples the offset in use and stored is the centre of their box; nothing happens when inactive |
| `Magnetometer.Calibration.Take` | firmware/src/imu.cpp:164-178 | the box kept is that of all samples since the start |
| `Magnetometer.Calibration.Finish` | firmware/src/imu.cpp:262-274 | the offset becomes the centre of the box and is stored, or nothing is learnt |
| `Magnetometer.BoxHoldsSamples` | firmware/src/imu.cpp:165-176 | every sample is in the box |
| `Magnetometer.BoxIsSmallest` | firmware/src/imu.cpp:165-176 | and no smaller box holds them all |
| `Magnetometer.OffsetCentres` | firmware/src/imu.cpp:179-181 | readings in the box, less the offset, are exactly those no longer in any direction than half of it |
| `MotorControl.Controller.TakeMagReading` | firmware/src/imu.cpp:164-181 | a reading is a sample only during a calibration, and comes out less the offset |
| `MotorControl.Controller.UpdateMagCalibrationMode` | firmware/src/imu.cpp:281-287 | follows the machine: a tick, and the end of the calibration when it is due |
| `MotorControl.Controller.LoseAgent` | firmware/src/main.cpp:369-377 | motors off, targets zero, controllers reset |
| `MotorControl.Controller.RunControlStep` | firmware/src/odometry.cpp:14-118 | speeds and pose follow their functions, the rest follows the machine; zero targets leave the motors off and the controllers as they were; motors left driven had a tick within the timeout, and each is driven by its own controller's output for its measured speed, with the kickstart for 200 ms of a new command; duties are always safe |
| `Odometry.NormalizeAngle` | firmware/src/imu.cpp:27-31 | the two loops end at the representative of the angle between minus and plus pi |
| `Odometry.NormalizedKeepsDirection` | firmware/src/imu.cpp:27-31 | which differs from it by whole turns |
| `Odometry.Odometer.Advance` | firmware/src/odometry.cpp:65-73 | the pose after a step: body speeds from the wheels, position along the heading at the middle of the step, heading normalised |
| `Odometry.StraightAndSpin` | firmware/src/odometry.cpp:65-73 | equal wheel speeds do not turn the robot, opposite ones do not move it |
| `Odometry.MovesAlongHeading` | firmware/src/odometry.cpp:65-73 | with true cosine and sine the way made is the mean wheel speed along the heading half way between old and new, and none across it |
| `MotorControl.Controller.Loop` | firmware/src/main.cpp:351-385 | one turn of the loop is the tick, the agent check every 500 ms and a step when 10 ms have passed, in that order; a lost agent leaves the motors off |
| `ByteLines.LinesMakeStream` | ros2_ws/src/lds02rr_driver/lds02rr_driver/lds02rr_node.py:70-72 | the cut into lines and rest loses nothing, and no line or rest has a newline |
| `ByteLines.CutIsUnique` | ros2_ws/src/lds02rr_driver/lds02rr_driver/lds02rr_node.py:70-72 | it is the only such cut |
| `ByteLines.ChoppingDoesNotMatter` | ros2_ws/src/lds02rr_driver/lds02rr_driver/lds02rr_node.py:61-75 | for every chopping of the stream into reads, the lines and the leftover are those of the whole stream |
| `LidarLines.LidarDriver.ReadCb` | ros2_ws/src/lds02rr_driver/lds02rr_driver/lds02rr_node.py:61-68 | after any reads the driver's state is that of the complete lines of all bytes received, and the buffer is their rest |
| `LidarLines.LidarDriver.ProcessLines` | ros2_ws/src/lds02rr_driver/lds02rr_driver/lds02rr_node.py:70-75 | the complete lines are parsed in order and the rest stays, unless a line is fatal |
| `LidarLines.LidarDriver.ParseLine` | ros2_ws/src/lds02rr_driver/lds02rr_driver/lds02rr_node.py:79-115 | the line-by-line effect used by the theorems on whole streams |
| `LidarLines.LidarDriver.PublishScan` | ros2_ws/src/lds02rr_driver/lds02rr_driver/lds02rr_node.py:119-135 | publishes the samples with the limits, angles and times of the scan, or raises at frequency 0 |
| `LidarLines.MessageIsScan` | ros2_ws/src/lds02rr_driver/lds02rr_driver/lds02rr_node.py:119-135 | ranges, intensities and limits as they are, one turn in 360 steps from the offset on, scan time times frequency 1 and 360 time steps to a scan |
| `LidarLines.ScanIsPublished` | ros2_ws/src/lds02rr_driver/lds02rr_driver/lds02rr_node.py:83-91 | an end of scan appends one message with the samples and the frequency as of that line, and other lines append none |
| `LidarLines.EveryScanIsPublished` | ros2_ws/src/lds02rr_driver/lds02rr_driver/lds02rr_node.py:83-91 | over every stream there are as many messages as ends of scans |
| `LidarLines.LastFrequencyHolds` | ros2_ws/src/lds02rr_driver/lds02rr_driver/lds02rr_node.py:84-89 | over every stream the frequency is the last one given, 5 Hz before any is |
| `LidarLines.EndOfScanSaysSo` | ros2_ws/src/lds02rr_driver/lds02rr_driver/lds02rr_node.py:81-83 | an end of scan begins with a hash and has both words as parts |
| `LidarLines.LidarDriver.EndScan` | ros2_ws/src/lds02rr_driver/lds02rr_driver/lds02rr_node.py:83-91 | an end-of-scan line sets the frequency if it reads as a float, and publishes |
| `LidarLines.LidarDriver.ParseSample` | ros2_ws/src/lds02rr_driver/lds02rr_driver/lds02rr_node.py:94-115 | a data line with three floats writes one sample, any other nothing |
| `LidarLines.SampleOf` | ros2_ws/src/lds02rr_driver/lds02rr_driver/lds02rr_node.py:94-103 | three numbers and whatever follows them are angle, distance and quality |
| `LidarLines.MillimetresToMetres` | ros2_ws/src/lds02rr_driver/lds02rr_driver/lds02rr_node.py:109-115 | a distance in millimetres is stored as a thousandth if positive and within the limits, else as infinity, NaN as NaN |
| `LidarLines.IndexIsNearest` | ros2_ws/src/lds02rr_driver/lds02rr_driver/lds02rr_node.py:108 | the sample is the one nearest to 180 degrees less the angle, up to whole turns |
| `LidarLines.TextIsBare` | ros2_ws/src/lds02rr_driver/lds02rr_driver/lds02rr_node.py:70-76 | the text of a line is what it decodes to, without the white space around it |
| `LineText.StrippedIsMiddle` | ros2_ws/src/lds02rr_driver/lds02rr_driver/lds02rr_node.py:87 | stripping takes white space off both ends and nothing else |
| `LineText.FieldsKeepText` | ros2_ws/src/lds02rr_driver/lds02rr_driver/lds02rr_node.py:95 | the fields of a line hold all that is not white space, in order |
| `LidarLines.Rounded` | ros2_ws/src/lds02rr_driver/lds02rr_driver/lds02rr_node.py:108 | Python's rounding: a nearest integer, even on ties |
| `LidarLines.FullTurnIsNone` | ros2_ws/src/lds02rr_driver/lds02rr_driver/lds02rr_node.py:108 | 360 degrees more is the same sample |
| `LidarLines.WholeDegreesFillScan` | ros2_ws/src/lds02rr_driver/lds02rr_driver/lds02rr_node.py:108 | different whole degrees of a turn have different samples |
| `LidarLines.DiesExactly` | ros2_ws/src/lds02rr_driver/lds02rr_driver/lds02rr_node.py:79-128 | the driver dies if and only if the stream has a fatal line: a sample at an angle that is NaN or infinite, or an end of scan at frequency 0 |
| `LidarLines.NaNKills` | ros2_ws/src/lds02rr_driver/lds02rr_driver/lds02rr_node.py:99-108 | the line `nan 1 1` is fatal |
| `LidarLines.ZeroFrequencyKills` | ros2_ws/src/lds02rr_driver/lds02rr_driver/lds02rr_node.py:83-91 | the line `# scan complete, freq=0Hz` is fatal |
| `LidarLines.FrequencyOf` | ros2_ws/src/lds02rr_driver/lds02rr_driver/lds02rr_node.py:84-88 | the frequency is what the stripped text after the first `freq=` reads as, up to the next `freq=`, `Hz` or the end |
| `LidarLines.LastLineWins` | ros2_ws/src/lds02rr_driver/lds02rr_driver/lds02rr_node.py:99-115 | each sample holds what the last line for it said: its distance in metres if within the limits, infinity or NaN as in MillimetresToMetres, and its quality; infinity and 0 before any line |
| `LidarLines.RangesAreFiltered` | ros2_ws/src/lds02rr_driver/lds02rr_driver/lds02rr_node.py:109-115 | each range is infinite or within the limits, or NaN from a line whose distance is NaN |

## Left out

- Dragonbox and Grisu: they rest on constants and tables in a header that is not part of this model; the helpers above
  are theirs.
- DivModAssign: quotients of 2^31 and more, where the `int` that counts the subtractions overflows, which C++ leaves
  undefined; `fallback_format` needs 9 at most (`NextDigit`).
- The 32-bit width of sizes and exponents in `bigint`, and the inline capacity of its buffer: numbers are as long as
  they need to be; powers of ten are bounded by the 32-bit bit mask (exponent below 2^30).
- RemoveTrailingZeros32: the limit of 7, and 16 for RemoveTrailingZeros64, are `float_info` constants declared in a
  header that is not part of this model.
- Format: the estimate of the decimal exponent and the rendering of the digits are not modelled; the number must be
  below 10^(exp10+1), as the digit loops rely on.
- The text of error messages, the sort order in the cycle message, and the reading of package files.
- C++ memory order, exceptions thrown inside a worker, scheduler fairness and the length of the 10 s timeout: a timeout
  is a step that may happen whenever a consumer sleeps. The variants of the queue for MinGW.
- ThreadPool: log and flush messages are numbered, what the worker does with them is not modelled; no other thread
  posts once the destructor has started.
- RotatingFiles: the formatter, flushing, encodings and the operating system are a map from index to bytes; a failing
  rename is an input. The rotation on opening is taken to succeed, and files beyond `max_files_` are not there at
  opening.
- Log: after a failed rotation the order of the messages kept is not stated, only that each file is made of whole
  messages and within the limit.
- SplitByExtension: the folder separator is `/` only.
- MotorControl: floating-point rounding, integer overflow of the encoder counters, pins and the micro-ROS entities;
  storage that cannot be opened; cosine and sine are parameters; the motor directions are those of the default build.
- LidarLines: decoding of bytes, white space and the reading of a float are parameters; the stamp and the frame in the
  message header are not in the published scan.
- DiesExactly: the setters of the message are taken not to raise; in ROS 2 they assert that floats fit 32 bits, so a
  finite value beyond that range would end the driver too when the scan is published.
- Launch files, URDF, visualisation, TF relays, and the rest of the vendored logging and formatting libraries.
