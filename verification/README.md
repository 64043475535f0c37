# Compile-time arithmetic

The Ghoti compiler evaluates numbers at compile time with its own arithmetic: big naturals as vectors of
64-bit limbs, big integers with a two's complement view, software floats in the half, single, double, x87
and quad formats of IEEE 754-2019, and correctly rounded elementary functions. This project models that
arithmetic and proves that it computes what it should, on every input.

The layers, each resting on the ones before it:

- `Powers`, `Digits`, `Limits`: products and quotients, powers, bit lengths, digit strings, limits.
- `Limbs`, `BigUint`, `BigInt`: limb vectors changed in place, against the numbers they stand for.
- `Formats`, `Rounding`, `RoundAlike`, `RoundScaled`, `Oracle`: the values of a format, rounding to
  nearest with ties to even as a relation between a real number and a pattern (section 4.3.1 of IEEE
  754-2019, overflow as in section 7.4), the integer algorithm every operation ends in, and the vector
  generator's own version.
- `FloatOps`, `ExactOps`, `Encoding`, `Landmarks`: arithmetic (section 5.4.1), remainder, truncation and order,
  special operands and signed zeros (sections 6.1 to 6.3), storage encodings (section 3.4), and the
  known patterns that tie the model to the five formats.
- `Numerals`, `Parsing`: the texts of numbers, given by how they are spelled, and reading them
  (section 5.12).
- `Shortest`, `Printing`, `RoundTrip`: the shortest decimal that reads back, its layout, the round trip.
- `FloatMath`, `Series`, `InverseSeries`, `Constants`, `Angles`, `TrueArguments`,
  `Evaluate`, `Logarithms`: deciding a result from an error interval, square
  roots, fixed-point series with their error budgets, the cached constants, interval division, the
  reduction of angles, and what is returned for whole functions.
- `Literals`, `PaddedLayout`: integer literals on both their paths, and struct bodies with padding.

How to read the model:

- A magnitude is a real number; `Val(m, k)` is `m * 2^k`. `CorrectlyRounded(f, negative, x, bits)` says
  that `bits` is the pattern of the magnitude `x`, under a sign, rounded into `f`; `RoundedUnique` shows
  that there is one such pattern.
- Above `BigUint` a big natural is the number it is worth: the contracts there say that each in-place
  operation does to the limbs what the layers above say of the number.
- A 128-bit pattern is a natural number, its bit fields quotients and remainders; an or of disjoint
  fields is written as a sum (`Limbs.OrDisjoint`). 64-bit exponents and counters are unbounded, which
  they can be as long as texts and precisions stay below `10^12` characters and `2^31` bits.
- e^r, sine, cosine, atanh and atan are their series: an error bound holds against every partial sum with
  enough terms, and so against the limit (`Limits.LimitWithin`). The constants are the limits of their
  series, bound to no value in advance.
- Proofs start with `hide` where definitions would only distract the verifier.

Where the code falls short of its own claims, the model keeps the code and says so:

- An exponent is clipped at `10^12`, so a text of more than that many characters can be misread.
  `Parsing.Parse` holds for every text with the clipped exponent; `ParsedExactly` says exactly for which
  texts that is the number written, `SaturationHarmless` that these include all shorter ones, and
  `OverlongMisread` gives one that is misread.
- A fresh cache asked for a constant at precision zero answers zero, which is not within two units of pi
  or ln 10 (`FreshAtZero`); every other answer is.
- At width zero, the signed zero survives the trip through words although `fits` says it does not fit
  (`NothingInNoBits`); everywhere else the trip succeeds exactly when the value fits.

## Model

| member | source | states |
|---|---|---|
| BigUints.BigUint.constructor | lib/support/src/big_uint.cc:27 | a 128-bit number becomes limbs without a zero on top, worth that number |
| BigUints.BigUint.Trim | lib/support/src/big_uint.cc:230-232 | zeros on top go, the value stays |
| BigUints.TrimmedUnique | lib/support/src/big_uint.cc:212-218 | trimmed limb vectors of equal value are equal, which is what makes comparing lengths first sound |
| BigUints.BigUint.Compare | lib/support/src/big_uint.cc:212-218 | the length-first order of trimmed vectors is the order of the numbers |
| BigUints.BigUint.BitLen | lib/support/src/big_uint.cc:47-50 | the bit length read off the top limb is that of the number |
| BigUints.BigUint.Bit | lib/support/src/big_uint.cc:52-55 | a bit of a limb is that bit of the number |
| BigUints.BigUint.AnyBelow | lib/support/src/big_uint.cc:57-64 | true exactly when the number is no multiple of `2^count` |
| BigUints.BigUint.ShiftLeft | lib/support/src/big_uint.cc:72-84 | multiplies by `2^count`, in place |
| BigUints.BigUint.ShiftRight | lib/support/src/big_uint.cc:86-101 | divides by `2^count`, dropping the remainder |
| BigUints.BigUint.KeepLow | lib/support/src/big_uint.cc:103-110 | leaves the remainder by `2^count` |
| BigUints.BigUint.Add | lib/support/src/big_uint.cc:112-122 | the carry loop adds |
| BigUints.BigUint.Subtract | lib/support/src/big_uint.cc:124-133 | the borrow loop subtracts a number that is not larger, and no borrow is left over |
| BigUints.BigUint.MultiplyAddSmall | lib/support/src/big_uint.cc:135-144 | multiplies and adds a 32-bit number without overflowing a limb |
| BigUints.BigUint.DivideSmall | lib/support/src/big_uint.cc:146-155 | quotient in place and remainder returned, for every nonzero 32-bit divisor |
| BigUints.BigUint.Multiply | lib/support/src/big_uint.cc:157-173 | the schoolbook product: no cell overflows and the limbs are worth the product |
| BigUints.BigUint.Divide | lib/support/src/big_uint.cc:175-196 | shift and subtract leaves the remainder in the numerator and returns the quotient, for every nonzero divisor |
| BigUints.BigUint.Power | lib/support/src/big_uint.cc:29-38 | repeated squaring computes the power |
| BigUints.BigUint.ToDecimal | lib/support/src/big_uint.cc:198-210 | the nine-digit chunks, padded, spell the canonical decimal string of the number |
| Limbs.OrDisjoint | lib/support/src/big_uint.cc:72-84 | joining disjoint bit fields with an or is adding them |
| Digits.DigitPlaces | lib/support/src/float128.cc:144-148 | a digit is worth its place in `0123456789abcdef` or in its upper-case form, and nothing else is a digit |
| Digits.DecimalValue | lib/support/src/big_uint.cc:198-210 | the decimal string of a number reads back as the number |
| Digits.CanonicalDecimalUnique | lib/support/src/big_uint.cc:198-210 | there is one decimal string without leading zeros for each number |
| BigInts.ArithmeticCorrect | lib/support/src/big_int.cc:58-76 | sum, difference, product, negation and complement are those of the integers |
| BigInts.DivisionCorrect | lib/support/src/big_int.cc:178-188 | `l = q r + rest` with a remainder below the divisor under the sign of the dividend |
| BigInts.ShiftsCorrect | lib/support/src/big_int.cc:202-213 | a right shift is floor division by `2^n`, also of negative numbers; a left shift multiplies |
| BigInts.CompareCorrect | lib/support/src/big_int.cc:215-221 | comparison is that of the integers |
| BigInts.IntUnique | lib/support/src/big_int.cc:83-84 | with no negative zero, equal integers are equal values |
| BigInts.FitsCorrect | lib/support/src/big_int.cc:117-133 | `fits` is exactly the range of the width, signed or not |
| BigInts.NegateWords | lib/support/src/big_int.cc:36-45 | the in-place carry loop negates modulo the words |
| BigInts.MaskToWidth | lib/support/src/big_int.cc:25-27 | clearing high bits takes the remainder by `2^width` |
| BigInts.ToWords | lib/support/src/big_int.cc:135-140 | the words are worth the number modulo `2^width` |
| BigInts.FromWords | lib/support/src/big_int.cc:142-153 | words of any number read back as an unsigned or two's complement number of the width |
| BigInts.WrapRoundTrip | lib/support/src/big_int.cc:135-153 | wrapping and reading back gives the number exactly when it is in range, or is zero read from no bits |
| BigInts.NothingInNoBits | lib/support/src/big_int.cc:117-153 | the corner at width zero: zero survives although `fits` denies it |
| BigInts.ThroughWords | lib/support/src/big_int.cc:135-153 | the same for the loops themselves: a value survives exactly when it fits, that corner aside |
| BigInts.BitwiseOf | lib/support/src/big_int.cc:47-56 | every bit of the result is the operator applied to that bit of the infinite two's complement operands |
| BigInts.BitsUnique | lib/support/src/big_int.cc:190-200 | bits determine the integer, so the contract above leaves no choice of the result |
| BigInts.MachineIntegers | lib/support/src/big_int.cc:106-115 | conversion to 128-bit machine integers succeeds exactly in their range and keeps the value |
| BigInts.WordCountLeast | lib/support/src/big_int.cc:135-140 | as few words as the width needs |
| BigInts.ToStringCorrect | lib/support/src/big_int.cc:155-157 | a minus sign exactly for negative numbers, then the canonical digits of the magnitude |
| BigInts.ToStringUnique | lib/support/src/big_int.cc:155-157 | equal texts are texts of equal numbers |
| BigInts.Parse | lib/support/src/big_int.cc:86-104 | digits valid in the base give their number, anything else none |
| Landmarks.QuadLandmarks | lib/support/src/float128.cc:22-45 | the patterns of one, of the zeros, the infinities and the quiet NaN in binary128 |
| Landmarks.OneStands | lib/support/src/float128.cc:428-476 | in each format the standard pattern decodes to one, with either sign, and encodes back |
| Landmarks.SmallestStands | lib/support/src/float128.cc:428-476 | pattern one is the smallest positive value: `2^-24`, `2^-149`, `2^-1074`, `2^-16445`, `2^-16494` |
| Landmarks.LargestStands | lib/support/src/float128.cc:428-476 | the largest finite pattern of each format has its value, 65504 for half, and encodes back |
| Landmarks.InfinityStands | lib/support/src/float128.cc:428-476 | the same for the infinities |
| Rounding.RoundExactCorrect | lib/support/src/float128.cc:72-109 | correct rounding for every significand, exponent, format and tail, across normal, subnormal, carry, underflow and overflow cases, given a bit to drop below a tail |
| Rounding.TailNeedsGuard | lib/support/src/float128.cc:72-73 | tails are rounded correctly if and only if something is dropped above them or the result overflows |
| Rounding.RoundedUnique | lib/support/src/float128.cc:72-109 | the specification leaves one result |
| RoundAlike.RoundedExists | lib/support/src/float128.cc:72-109 | and there is always one |
| RoundAlike.AlikeExact | lib/support/src/float128.cc:72-109 | of two magnitudes, one at least twice the other, the roundings are the same exactly if both vanish, both overflow, or both become the smallest positive value |
| Rounding.NearestUnique | lib/support/src/float128.cc:72-109 | one value is nearest, ties included |
| Rounding.NearestMonotone | lib/support/src/float_math.cc:461-474 | rounding never reverses the order of two magnitudes |
| Rounding.RoundedConvex | lib/support/src/float_math.cc:461-474 | if both ends of an interval round to one pattern, so does everything inside |
| Rounding.RoundedExact | lib/support/src/float128.cc:270-289 | what the format can hold rounds to itself |
| Rounding.PlaceNearest | lib/support/src/float128.cc:82-107 | rounding half-even at the place of the leading bit gives a nearest value of the format and overflows exactly from the threshold |
| Formats.ExactQuadValue | lib/support/src/float128.cc:57-70 | the pattern built holds exactly `significand * 2^exponent` |
| Formats.FiniteUnique | lib/support/src/float128.cc:47-55 | equal signs and magnitudes make equal patterns |
| Formats.UnpackCanonical | lib/support/src/float128.cc:47-55 | unpacking yields the canonical form of a finite value |
| RoundScaled.RoundScaled | lib/support/src/float128.cc:72-109 | the limb-level rounding computes what the specification function says of the number |
| Oracle.OracleBits | tools/gen_float_math_vectors.py:47-83 | the independent rounding of the vector generator gives the same pattern and is correct |
| Oracle.RoundToCorrect | tools/gen_float_math_vectors.py:47-67 | its rounded mantissa and exponent are the nearest value, and its two special answers exactly zero and overflow |
| Oracle.QuadBits | tools/gen_float_math_vectors.py:70-83 | the loop that narrows the mantissa and the packing give the pattern of the value |
| FloatOps.AddCorrect | lib/support/src/float128.cc:662-682 | the exact sum rounded once; an exact zero is positive unless both operands are negative zeros |
| FloatOps.AddExactCorrect | lib/support/src/float128.cc:115-138 | the same for two signed terms at any two exponents |
| FloatOps.SubtractCorrect | lib/support/src/float128.cc:684 | the exact difference rounded once |
| FloatOps.NegateFlips | lib/support/src/float128.cc:658 | negation flips the sign and nothing else |
| FloatOps.MultiplyCorrect | lib/support/src/float128.cc:686-701 | the exact product rounded once, under the sign of the operands |
| FloatOps.QuotientRounded | lib/support/src/float128.cc:258-266 | the widened truncated quotient with a sticky remainder is the exact quotient rounded once |
| FloatOps.DivideCorrect | lib/support/src/float128.cc:703-728 | the exact quotient rounded once |
| FloatOps.FusedMultiplyAddCorrect | lib/support/src/float128.cc:749-774 | the exact `a b + c` rounded once, zeros signed |
| FloatOps.AddSpecial | lib/support/src/float128.cc:662-672 | which sums with infinities and NaN are the quiet NaN, and which infinity the others are |
| FloatOps.SubtractSpecial | lib/support/src/float128.cc:684 | the same for differences |
| FloatOps.MultiplySpecial | lib/support/src/float128.cc:686-693 | the same table for products |
| FloatOps.DivideSpecial | lib/support/src/float128.cc:703-711 | the same for quotients, division by zero included |
| FloatOps.FusedSpecial | lib/support/src/float128.cc:749-757 | the same for the fused operation |
| FloatOps.RoundToFormatSpecial | lib/support/src/float128.cc:584-587 | narrowing leaves infinities and NaN as they are |
| FloatOps.RoundToFormatCorrect | lib/support/src/float128.cc:584-587 | narrowing is correct rounding |
| ExactOps.RemainderTruncCorrect | lib/support/src/float128.cc:730-747 | `abs(a) = q abs(b) + abs(r)` exactly, `abs(r) < abs(b)`, under the sign of `a`: the final rounding changes nothing |
| ExactOps.RemainderSpecial | lib/support/src/float128.cc:730-734 | the same for the other operands: NaN from NaN, an infinite dividend or a zero divisor, and otherwise the dividend itself |
| ExactOps.TruncCorrect | lib/support/src/float128.cc:591-599 | truncation keeps the sign and the integer part |
| ExactOps.FloorCorrect | lib/support/src/float_math.cc:483-488 | the floor is exact and keeps the sign, that of a zero included |
| ExactOps.CeilCorrect | lib/support/src/float_math.cc:631-632 | so is the ceiling, as the dual of the floor |
| ExactOps.IntegralSpecial | lib/support/src/float128.cc:591-599 | truncation, floor and ceiling leave infinities and NaN as they are |
| ExactOps.CompareSpecial | lib/support/src/float128.cc:783-801 | only NaN is unordered, infinities are outermost, and equality is equivalence in the order |
| ExactOps.CompareCorrect | lib/support/src/float128.cc:783-801 | comparison of patterns is that of the numbers, `-0` equal to `+0` |
| Encoding.DecodeEncode | lib/support/src/float128.cc:553-582 | decoding an encoding rounds to the format and does nothing else |
| Encoding.EncodeDecode | lib/support/src/float128.cc:496-525 | encoding a decoding gives back every canonical encoding: subnormals, infinities and NaN payloads |
| Encoding.NormalizeCorrect | lib/support/src/float128.cc:277-289 | widening a value to the format's precision is exact both ways |
| Encoding.DecodeSpecial | lib/support/src/float128.cc:505-518 | a full exponent decodes to infinity or to the NaN with the payload on top |
| Encoding.DecodeEncodeNan | lib/support/src/float128.cc:553-567 | a NaN keeps its sign and the payload that fits, and turns quiet if none does |
| Encoding.DecodeUnsupported | lib/support/src/float128.cc:505-508 | x87 encodings with a clear integer bit under an exponent that is not zero decode to the quiet NaN |
| Numerals.SpellUnique | lib/support/src/float128.cc:177-204 | a text spells one numeral at most |
| Numerals.ParseExponent | lib/support/src/float128.cc:154-169 | well-formed exponents read as their value, clipped; anything else is refused |
| Numerals.ScanNumber | lib/support/src/float128.cc:177-204 | the scanner accepts exactly the texts that spell a numeral and finds its parts |
| Parsing.ReadDigits | lib/support/src/float128.cc:232-239 | folding digits gives their number and counts the significant ones |
| Parsing.ParseDecimal | lib/support/src/float128.cc:227-268 | every decimal numeral becomes the correct rounding of its number, with its status; the cutoffs never show |
| Parsing.ParseHex | lib/support/src/float128.cc:212-225 | the same for hexadecimal numerals |
| Parsing.Parse | lib/support/src/float128.cc:541-551 | the same for whole texts with sign and prefix; malformed exactly when the text is none |
| Parsing.LargeOverflows | lib/support/src/float128.cc:245-247 | from `10^4934` on every format overflows |
| Parsing.SmallVanishes | lib/support/src/float128.cc:248-250 | below `10^-4967` every format rounds to zero |
| Parsing.SaturationExact | lib/support/src/float128.cc:154-169 | clipping the exponent changes no rounding of a text exactly if it is hidden: no digit but zeros, an exponent within the bound, or a clipped and a written number that both overflow, both vanish, or both become the smallest positive value |
| Parsing.SaturationHarmless | lib/support/src/float128.cc:154-169 | clipping is hidden in every text short of about `10^12` characters |
| Parsing.OverlongMisread | lib/support/src/float128.cc:154-169 | past that length it does: a text denoting one that reads as a tenth, in every format |
| Parsing.ParsedExactly | lib/support/src/float128.cc:541-551 | a text is read as the number it denotes if and only if clipping is hidden |
| Parsing.ParsedCorrectly | lib/support/src/float128.cc:541-551 | so texts of ordinary length read as the number they denote |
| Shortest.InsideRounds | lib/support/src/float128.cc:359-407 | the interval between the midpoints holds exactly the numbers that round to the value |
| Shortest.NothingBetween | lib/support/src/float128.cc:409-424 | between the two neighbours of a length lies no decimal of that length |
| Shortest.CandidatesSuffice | lib/support/src/float128.cc:409-424 | if any decimal of a length rounds to the value, the floor or the ceiling does, and is no farther |
| Printing.IncrementDigits | lib/support/src/float128.cc:304-314 | the digit string worth one more |
| Printing.TrimValue | lib/support/src/float128.cc:297-302 | trimming zeros keeps the number |
| Printing.CompareDigitsNumeric | lib/support/src/float128.cc:353-357 | comparing digit strings is comparing numbers |
| Printing.IntervalBounds | lib/support/src/float128.cc:362-384 | the decimal strings of the interval are its bounds |
| Printing.ContainsInside | lib/support/src/float128.cc:386-399 | the string test decides membership in the interval |
| Printing.CandidatesOf | lib/support/src/float128.cc:409-424 | the two neighbours of a length, the half-even rounding first |
| Printing.ShortestDecimal | lib/support/src/float128.cc:630-639 | no decimal with fewer digits rounds to the value, and none as short that does is nearer |
| RoundTrip.LayoutSpells | lib/support/src/float128.cc:316-350 | each branch of the layout spells its numeral |
| RoundTrip.LayoutValue | lib/support/src/float128.cc:316-350 | the layout preserves `digits * 10^exponent` and adds only zeros |
| RoundTrip.LayoutStandard | lib/support/src/float128.cc:316-350 | an exponent exactly below `10^-4` and from `10^16` on, with one digit before the point, `e`, a sign and two digits or more; otherwise no needless zeros, and a point exactly for numbers that are not whole |
| RoundTrip.ToString | lib/support/src/float128.cc:624-640 | what is printed: the words for infinities and NaN, signed zeros, and the shortest text of every other value in the standard layout |
| RoundTrip.PrintAndParse | lib/support/src/float128.cc:624-640 | printing and parsing gives back every value of every format, `-0` and subnormals included |
| RoundTrip.NotANumber | lib/support/src/float128.cc:626-627 | the words for infinities and NaN are not numerals |
| FloatMath.DecideCorrect | lib/support/src/float_math.cc:461-474 | a value is decided exactly when everything within the error rounds to it |
| FloatMath.NudgedCorrect | lib/support/src/float_math.cc:476-481 | a nudged significand rounds like every number strictly between it and its neighbour |
| FloatMath.UnitNudgeAllowed | lib/support/src/float_math.cc:582-594 | one, nudged at 240 bits, leaves bits to drop |
| FloatMath.TinyNudgeAllowed | lib/support/src/float_math.cc:571-574 | so does the power of two below every format |
| FloatMath.OwnNudgeAllowed | lib/support/src/float_math.cc:596-605 | so does a value's own significand two bits wider, nudged either way |
| FloatMath.IntegerRoot | lib/support/src/float_math.cc:503-507 | the bit-by-bit loop finds the integer square root |
| FloatMath.RootRounded | lib/support/src/float_math.cc:495-509 | the widened integer root with its sticky bit rounds like the real root |
| FloatMath.SqrtOf | lib/support/src/float_math.cc:490-510 | correctly rounded square roots in every format, and the special operands |
| FloatMath.PowerOfTen | lib/support/src/float_math.cc:512-527 | an exponent is found exactly for the powers of ten |
| Series.TermClosed | lib/support/src/float_math.cc:249-322 | each term is a power of the argument over the factorial of its order |
| Series.TermError | lib/support/src/float_math.cc:249-274 | each truncated term is at most two units below the exact one |
| Series.SumWithin | lib/support/src/float_math.cc:249-322 | once a computed term is zero the sum is near every later partial sum |
| Series.ExpSeries | lib/support/src/float_math.cc:310-322 | within `6 + 2 terms` of the `64 + 8 terms` units allowed of every longer partial sum; the loop ends |
| Series.SineCosineOf | lib/support/src/float_math.cc:249-274 | the same for sine and cosine of angles to `8/5`, sums below zero counting as zero, though the first cosine term may grow; the loop ends |
| Series.TermCount | lib/support/src/float_math.cc:249-322 | the number of terms grows no faster than the precision |
| InverseSeries.SingleFloor | lib/support/src/float_math.cc:97-114 | nested truncating divisions are one floor of `2^(P+32) / ((2k+1) n^(2k+1))` |
| InverseSeries.SumOfInverses | lib/support/src/float_math.cc:97-114 | within `1 + (terms+1) / 2^32` units of every longer partial sum |
| Constants.ComputeLn2 | lib/support/src/float_math.cc:116-121 | ln 2 within two units |
| Constants.ComputeLn10 | lib/support/src/float_math.cc:123-131 | ln 10 within two units |
| Constants.ComputePi | lib/support/src/float_math.cc:133-142 | pi within two units, Machin's difference never below zero |
| Constants.TwoOverPiNear | lib/support/src/float_math.cc:185-188 | 2/pi within two units, from a pi within two units at sixteen more bits |
| Constants.CachedConstant.At | lib/support/src/float_math.cc:144-168 | every answer within two units, whatever was asked before; only a fresh cache asked for no bits answers zero |
| Constants.FreshAtZero | lib/support/src/float_math.cc:153-162 | that zero is within two units of ln 2 and 2/pi and not of ln 10 and pi |
| Constants.Replay | lib/support/src/float_math.cc:144-193 | a whole run of requests in any order |
| Constants.ConstantRanges | lib/support/src/float_math.cc:116-142 | the numbers the sums approach begin 0.693, 2.30, 3.141 and 0.636 |
| Constants.PiBounds | lib/support/src/float_math.cc:133-142 | the number the Machin sums approach lies between 3.13 and 3.15 |
| Angles.DivideBoundedSound | lib/support/src/float_math.cc:200-221 | whatever the operands are within their bounds, the exact quotient is within the bounds of the result |
| Angles.ReduceAngle | lib/support/src/float_math.cc:228-241 | the magnitude of `x` is a whole number of quarter turns and a remainder to within eight units, at any magnitude; the remainder is no more than a quarter turn and two units |
| Angles.DivideBoundedGiven | lib/support/src/float_math.cc:200-221 | a quotient is given exactly if the denominator is more than twice its error, with no more error than the operands account for |
| Angles.TopExponentBounds | lib/support/src/float_math.cc:56-59 | the magnitude lies between two to its top exponent and twice that |
| Angles.ToFixedNear | lib/support/src/float_math.cc:61-71 | the fixed-point form is less than a unit below the magnitude |
| Limits.LimitWithin | lib/support/src/float_math.cc:90-95 | an error bound against all long partial sums is one against their limit |
| Literals.ParseU128 | lib/compiler/src/ast/primitive.cc:32-56 | overflow is flagged exactly from `2^128` up, or for a character that is no digit; otherwise the value is exact |
| Literals.ExactDigits | lib/compiler/src/ast/primitive.cc:116-126 | the exact path agrees on every text of valid digits |
| Literals.MakeLiteral | lib/compiler/src/ast/primitive.cc:232-250 | the literal the parser builds keeps its value up to 128 bits, and the digits of its value beyond |
| Literals.ExactValue | lib/compiler/src/ast/primitive.cc:253-258 | both kinds of literal yield the number their digits denote |
| Literals.AsFloat | lib/compiler/src/ast/primitive.cc:260-263 | both branches give the correct rounding of that number |
| Literals.PrintAndParse | lib/support/src/big_int.cc:155-157 | printing in decimal and parsing is the identity, signs aside |
| Literals.ParseAndPrint | lib/support/src/big_int.cc:155-157 | and canonical digit strings come back |
| PaddedLayouts.PadBody | lib/compiler/src/codegen/type_translator.cc:230-269 | laid out by the natural or the packed rule, the padded body puts each field at the wanted offset and has the wanted size |
| PaddedLayouts.TypeTranslator.SetPaddedBody | lib/compiler/src/codegen/type_translator.cc:230-275 | every struct's stored indices keep naming exactly its fields in order |
| PaddedLayouts.TypeTranslator.StructFieldIndex | lib/compiler/src/codegen/type_translator.cc:277-280 | a field's index leads to its member, at the field's offset |
| PaddedLayouts.PlacedField | lib/compiler/src/codegen/type_translator.cc:247-258 | a field placed behind its padding keeps all earlier ones in place |
| PaddedLayouts.FieldPlaced | lib/compiler/src/codegen/type_translator.cc:247-258 | a field starts at the first multiple, after the field before it, of the larger of its wanted and natural alignments, of which a packed struct has none |
| PaddedLayouts.NaturalAligned | lib/compiler/src/codegen/type_translator.cc:230-240 | under the natural rule members start and the whole ends at the first multiple of their alignments |
| PaddedLayouts.PackedDense | lib/compiler/src/codegen/type_translator.cc:230-240 | under the packed rule members follow each other without gaps |
| PaddedLayouts.AlignedBoth | lib/compiler/src/codegen/type_translator.cc:247-258 | what is rounded to a larger power of two is rounded to a smaller one |
| TrueArguments.TrueAngle | lib/support/src/float_math.cc:223-274 | the budget of `64 + 8 terms` units also covers an angle off by eight units: the sums at the true angle are within it |
| TrueArguments.SumsDrift | lib/support/src/float_math.cc:223-274 | partial sums of sine and cosine at two angles eight units apart differ by at most sixty units |
| TrueArguments.TrueExponent | lib/support/src/float_math.cc:324-338 | the sums at the true exponent are within the series error and 3.6 times the distance |
| Evaluate.Decided | lib/support/src/float_math.cc:461-474 | everything within the error of a decided approximation is positive and rounds to the result |
| Evaluate.Undecided | lib/support/src/float_math.cc:461-474 | and what is not decided has a number within twice the error that rounds elsewhere, or is not positive |
| Evaluate.ApproximateExp | lib/support/src/float_math.cc:324-338 | the exponential is within its error of `e^r` for the true reduced argument `r`, small enough to settle the scale; the error grows no faster than the precision and the scale |
| Evaluate.ApproximateExp2 | lib/support/src/float_math.cc:340-358 | so is the base-two one, whose small argument is the fraction times ln 2, with the whole part as scale |
| Evaluate.ExpDecided | lib/support/src/float_math.cc:324-358 | so what is decided is the correct rounding of `2^k e^r`, for either base |
| Evaluate.EvaluateExp | lib/support/src/float_math.cc:628-652 | and so is what the loop over precisions returns, which gives up only if no precision up to the limit decides |
| Evaluate.TrigNear | lib/support/src/float_math.cc:276-303 | sine and cosine are within their error of the series at the angle left of the true argument |
| Evaluate.ApproximateTrig | lib/support/src/float_math.cc:276-303 | the approximation of sine, cosine or tangent after quarter turns that leave no less than nothing and no more than another, to a few units, under the sign of the quadrant; only a tangent may have no answer, while its denominator is at most twice its error |
| Evaluate.TangentDecided | lib/support/src/float_math.cc:296-302 | a decided tangent is the correct rounding of the quotient of the two series, both positive |
| Evaluate.TrigDecided | lib/support/src/float_math.cc:276-303 | what is decided is the correct rounding of a positive sine, cosine or tangent, under the sign of its quadrant |
| Evaluate.EvaluateTrig | lib/support/src/float_math.cc:628-652 | and so is what the loop over precisions returns, at any magnitude of the argument; it gives up only if at every precision sine and cosine within the error limit decide nothing, or leave the tangent no denominator |
| Logarithms.MantissaRange | lib/support/src/float_math.cc:369-379 | the mantissa lies in [0.75, 1.5) and `x` is the mantissa times a power of two |
| Logarithms.PowerError | lib/support/src/float_math.cc:383-391 | each truncated odd power is at most two units below the exact one |
| Logarithms.SumNearAll | lib/support/src/float_math.cc:383-393 | once a power has vanished, the computed sum is near every later partial sum of the atanh series |
| Logarithms.LogOfMantissa | lib/support/src/float_math.cc:367-396 | twice the atanh to within the error given, at most `16 + 8 P` units at precision `P`, under the right sign; the loop ends |
| Logarithms.AddSigned | lib/support/src/float_math.cc:78-88 | sign and magnitude addition adds |
| Logarithms.NaturalLogOf | lib/support/src/float_math.cc:407-415 | the natural logarithm of the mantissa and the exponent together, two units for each multiple of ln 2 |
| Logarithms.ApproximateLog | lib/support/src/float_math.cc:417-444 | the logarithm to base e, two or ten to within its error, seen from its own sign; the divisions never give up and the error grows no faster than precision and exponent |
| Angles.DivideBoundedTight | lib/support/src/float_math.cc:200-221 | a denominator of a quarter or more always divides, and leaves about four times the numerator's error |
| Logarithms.LogarithmUnique | lib/support/src/float_math.cc:417-444 | the series leave one logarithm for each function and argument |
| Logarithms.LogDecided | lib/support/src/float_math.cc:461-474 | what is decided is the correct rounding of the logarithm, sign included |
| Logarithms.EvaluateLog | lib/support/src/float_math.cc:628-652 | and so is what the loop over precisions returns, which gives up only if no precision up to the limit decides |

## Left out

- That some working precision always decides: the loop may run out, and then the claim is only that none of the precisions it tried decides.
- The analytic identities that lead from the series to sine, exponential and logarithm of other arguments (periodicity, `e^x = 2^k e^r`, `ln x = k ln 2 + 2 atanh((m - 1) / (m + 1))`), and the values of pi and the logarithms of two and ten beyond their series.
- The argument thresholds below which tiny arguments are answered by a nudged exact value: only the rounding of such values is modelled.
- Angles.ReduceAngle: takes precisions from five bits up, as the callers' precisions start at 75; below that a remainder could exceed `8/5` in its few units. Its constants' precisions stay below the `2^31` bits of the next lines.
- Constants.ComputeLn2: precisions up to `2^31` bits; beyond about `2^32` the series has more terms than its 32 guard bits absorb and than its 32-bit counter counts.
- Constants.ComputeLn10: the same bound.
- Constants.ComputePi: the same bound.
- Constants.CachedConstant.At: the same bound, less what rounding up to a multiple of the step adds, and so in everything that asks for a constant.
- Constants.Replay: the same bound for each request.
- Constants.CachedConstant: one cache object per constant, passed to its callers; thread-local storage is not modelled.
- ExactOps.RemainderTruncCorrect: finite operands that are values of the format with a divisor that is not zero; of wider operands the remainder may need rounding, and RemainderSpecial has the others.
- Series.SineCosineOf: partial sums below zero count as zero, as the code settles a negative sum to zero; those of the cosine do go below zero near a right angle.
- Limits.LimitWithin: that the series have limits is not proved, and results about them speak of any number that is their limit.
- PaddedLayouts.TypeTranslator.SetPaddedBody: a struct type gets its body once, as LLVM itself demands; a second one without padding would leave the indices of the first behind.
- BigUints.BigUint.Copy: copies and moves are values; allocation failure is not modelled.
- Literal lexemes, suffixes and diagnostics, and the LLVM types themselves: a struct body is a sequence of sizes and alignments, laid out by LLVM's natural or packed rule.
- Conversion of floats to machine integers, and everything outside the files cited above.
