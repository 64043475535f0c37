/** Reading floats: every well-formed text becomes the correct rounding of the number it denotes. */
module Parsing {
  import opened Powers
  import opened Digits
  import opened Numerals
  import opened RoundAlike
  import opened Formats
  import opened Rounding
  import opened FloatOps
  import opened ExactOps

  datatype Status = OK | TOO_LARGE | TOO_SMALL | MALFORMED
  datatype ParseResult = ParseResult(value: nat, status: Status)

  // ----- Magnitudes beyond every format -----------------------------------------------------------

  lemma {:induction false} FivePower()
    ensures Pow(5, 28) == 37_252_902_984_619_140_625
  {
    assert Pow(5, 7) == 78_125;
    hide Pow;
    PowAdd(5, 7, 7);
    PowAdd(5, 14, 14);
  }

  lemma {:induction false} TwoPowers()
    ensures P2(65) == 36_893_488_147_419_103_232 && P2(36) == 68_719_476_736 && P2(19) == 524_288
  {
    hide P2, Pow;
    SmallPower();
    P2Step(16);
    P2Step(17);
    P2Step(18);
    P2Add(18, 18);
    P2Add(16, 16);
    P2Add(32, 32);
    P2Step(64);
  }

  lemma {:induction false} TenPowers()
    ensures Pow(10, 6) == 1_000_000 && Pow(10, 11) == 100_000_000_000
  {
    assert Pow(10, 5) == 100_000;
    hide Pow;
    PowStep(10, 5);
    PowAdd(10, 5, 6);
  }

  /** Ten to the 28th is just above two to the 93rd, close enough for both cutoffs. */
  lemma {:induction false} TenAndTwo()
    ensures P2(93) <= Pow(10, 28) && P2(19) <= Pow(10, 6) && P2(36) <= Pow(10, 11)
  {
    hide Pow, P2;
    FivePower();
    TwoPowers();
    TenPowers();
    P2Add(65, 28);
    PowMul(2, 5, 28);
    P2Is(28);
    MulMono(P2(65), Pow(5, 28), P2(28));
  }

  lemma {:induction false} P2Is(e: nat)
    ensures P2(e) == Pow(2, e)
  {
  }

  lemma {:induction false} TenBeatsTwo(k: nat, rest: nat, e: nat)
    requires P2(e) <= Pow(10, rest)
    ensures P2(93 * k + e) <= Pow(10, 28 * k + rest)
  {
    hide Pow, P2;
    TenAndTwo();
    PowPow(2, 93, k);
    P2Is(93);
    P2Is(93 * k);
    PowPow(10, 28, k);
    PowGrows(P2(93), Pow(10, 28), k);
    P2Add(93 * k, e);
    PowAdd(10, 28 * k, rest);
    MulMono(P2(93 * k), Pow(10, 28 * k), P2(e));
    MulMono(P2(e), Pow(10, rest), Pow(10, 28 * k));
  }

  /** From `10^4934` on, every format overflows. */
  lemma {:induction false} LargeOverflows(x: real, f: Format)
    requires RPow(10, 4934) <= x
    ensures x >= Threshold(f)
  {
    hide RPow, Pow, P2, Two, Threshold;
    TenAndTwo();
    TenBeatsTwo(176, 6, 19);
    RPowNat(10, 4934);
    TwoNat(16387);
    FarOverflow(f, x, 16387);
  }

  /** Below `10^-4967` everything rounds to zero in every format. */
  lemma {:induction false} SmallVanishes(x: real, f: Format, negative: bool)
    requires 0.0 <= x < RPow(10, -4967)
    ensures x <= Two(Quantum(f) - 1) && CorrectlyRounded(f, negative, x, Zero(negative))
  {
    hide RPow, Pow, P2, Two, Threshold, CorrectlyRounded, Zero;
    TenAndTwo();
    TenBeatsTwo(177, 11, 36);
    RPowNat(10, 4967);
    TwoNat(16497);
    RPowInverse(10, 4967);
    RPowInverse(2, 16497);
    InverseOrder(Two(16497), RPow(10, 4967), Two(-16497), RPow(10, -4967)) by { TwoIs(16497); TwoIs(-16497); }
    TwoMono(-16497, Quantum(f) - 1);
    TinyRounds(x, f, negative);
  }

  lemma {:induction false} TwoIs(e: int)
    ensures Two(e) == RPow(2, e)
  {
  }

  lemma {:induction false} InverseOrder(x: real, y: real, x': real, y': real)
    requires 0.0 < x <= y && 0.0 < x' && 0.0 < y' && x' * x == 1.0 && y' * y == 1.0
    ensures y' <= x'
  {
    if x' < y' {
      RMulStrict(x', y', x);
      RMulMono(x, y, y');
    }
  }

  // ----- Reading digits ---------------------------------------------------------------------------

  /** Folds digits into the significand; counts them from the first that makes it nonzero. */
  method ReadDigits(base: nat, digits: string, start: nat, counted: nat) returns (significand: nat, count: nat)
    requires base == 10 || base == 16
    requires DigitsIn(base, digits) && Counted(base, start, counted)
    ensures significand == start * Pow(base, |digits|) + ValueIn(base, digits)
    ensures Counted(base, significand, count)
  {
    hide Pow, ValueIn;
    significand, count := start, counted;
    PowZero(base);
    EmptyValue(base, digits);
    for i := 0 to |digits|
      invariant significand == start * Pow(base, i) + ValueIn(base, digits[..i])
      invariant Counted(base, significand, count)
    {
      ValueStep(base, digits, i);
      PowStep(base, i);
      Horner(start, Pow(base, i), ValueIn(base, digits[..i]), base);
      CountStep(base, significand, count, DigitOf(digits[i]));
      significand := significand * base + DigitOf(digits[i]);
      if significand != 0 { count := count + 1; }
    }
    assert digits[..|digits|] == digits;
  }

  /** `count` digits, the first of them nonzero. */
  ghost predicate Counted(base: nat, significand: nat, count: nat)
    requires 0 < base
  {
    if significand == 0 then count == 0
    else 0 < count && Pow(base, count - 1) <= significand < Pow(base, count)
  }

  lemma {:induction false} CountStep(base: nat, s: nat, count: nat, d: nat)
    requires 2 <= base && d < base && Counted(base, s, count)
    ensures Counted(base, s * base + d, if s * base + d != 0 then count + 1 else count)
  {
    hide Pow;
    PowZero(base);
    PowStep(base, 0);
    if s > 0 {
      PowStep(base, count - 1);
      PowStep(base, count);
      NextDigit(s, base, d, Pow(base, count - 1), Pow(base, count));
    }
  }

  lemma {:induction false} NextDigit(s: int, base: int, d: int, low: int, high: int)
    requires 0 < low <= s < high && 0 <= d < base
    ensures base * low <= s * base + d < base * high && 0 < s * base
  {
    MulMono(low, s, base);
    MulMono(s + 1, high, base);
    MulStrict(0, s, base);
  }

  function StatusOf(value: nat): Status
  {
    if IsInfinite(value) then TOO_LARGE else if IsZero(value) then TOO_SMALL else OK
  }

  /** The digits of a numeral are digits of its base, the fraction continuing the whole part. */
  lemma {:induction false} NumeralDigits(hex: bool, n: Numeral)
    requires ValidNumeral(hex, n)
    ensures DigitsIn(Base(hex), n.whole) && DigitsIn(Base(hex), n.fraction)
    ensures DigitsValue(hex, n)
         == ValueIn(Base(hex), n.whole) * Pow(Base(hex), |n.fraction|) + ValueIn(Base(hex), n.fraction)
  {
    hide Pow, ValueIn;
    assert forall i :: 0 <= i < |n.whole| ==> IsDigit(hex, n.whole[i]);
    assert forall i :: 0 <= i < |n.fraction| ==> IsDigit(hex, n.fraction[i]);
    ValueConcat(Base(hex), n.whole, n.fraction);
  }

  method ReadSignificand(hex: bool, whole: string, fraction: string, ghost n: Numeral)
    returns (significand: nat, count: nat)
    requires ValidNumeral(hex, n) && whole == n.whole && fraction == n.fraction
    ensures significand == DigitsValue(hex, n) && Counted(Base(hex), significand, count)
  {
    hide Pow, ValueIn;
    NumeralDigits(hex, n);
    significand, count := ReadDigits(Base(hex), whole, 0, 0);
    significand, count := ReadDigits(Base(hex), fraction, significand, count);
  }

  // ----- What reading promises --------------------------------------------------------------------

  /** The correct rounding of a number, and a status that says when a finite number became infinity
      or a nonzero one zero. */
  ghost predicate ReadsAs(f: Format, negative: bool, x: real, r: ParseResult)
  {
    && CorrectlyRounded(f, negative, x, r.value)
    && r.status == if IsInfinite(r.value) then TOO_LARGE else if IsZero(r.value) && x != 0.0 then TOO_SMALL else OK
  }

  /** The number a numeral denotes with its exponent clipped to what the scanner keeps. */
  function KeptValue(hex: bool, n: Numeral): real
  {
    Scaled(hex, DigitsValue(hex, n), Saturated(WrittenExponent(n)), |n.fraction|)
  }

  /** A significand read from digits of which the last `places` follow the point. */
  function Scaled(hex: bool, significand: nat, exponent: int, places: nat): real
  {
    if hex then Val(significand, exponent - 4 * places)
    else significand as real * RPow(10, exponent - places)
  }

  lemma {:induction false} ZeroReads(f: Format, negative: bool)
    ensures ReadsAs(f, negative, 0.0, ParseResult(Zero(negative), OK))
  {
    hide RPow, Pow, P2, Two, CorrectlyRounded, Zero;
    TinyRounds(0.0, f, negative);
    ZeroPattern(negative);
    NotFiniteExcluded(Zero(negative));
  }

  lemma {:induction false} InfinityReads(f: Format, negative: bool, x: real)
    requires x >= Threshold(f)
    ensures ReadsAs(f, negative, x, ParseResult(Infinity(negative), TOO_LARGE))
  {
    hide Threshold, Infinity;
    InfinityNotFinite(negative);
  }

  lemma {:induction false} VanishedReads(f: Format, negative: bool, x: real)
    requires 0.0 < x && CorrectlyRounded(f, negative, x, Zero(negative))
    ensures ReadsAs(f, negative, x, ParseResult(Zero(negative), TOO_SMALL))
  {
    hide CorrectlyRounded, Zero;
    ZeroPattern(negative);
    NotFiniteExcluded(Zero(negative));
  }

  // ----- Decimal ----------------------------------------------------------------------------------

  /** A number with `count` digits lies between two powers of ten. */
  lemma {:induction false} DecimalScale(s: nat, count: nat, e: int, x: real)
    requires 0 < s && Counted(10, s, count) && x == s as real * RPow(10, e)
    ensures RPow(10, count - 1 + e) <= x < RPow(10, count + e)
  {
    hide RPow, Pow, Times;
    RPowNat(10, count - 1);
    RPowNat(10, count);
    RPowTimes(10, count - 1, e);
    RPowTimes(10, count, e);
    TimesBounds(Pow(10, count - 1) as real, s as real, Pow(10, count) as real, RPow(10, e));
  }

  lemma {:induction false} CutoffLarge(f: Format, negative: bool, s: nat, count: nat, e: int, x: real)
    requires 0 < s && Counted(10, s, count) && x == s as real * RPow(10, e) && count - 1 + e > 4_933
    ensures x >= Threshold(f)
  {
    hide RPow, Pow, Threshold;
    DecimalScale(s, count, e, x);
    RPowMono(10, 4934, count - 1 + e);
    LargeOverflows(x, f);
  }

  lemma {:induction false} CutoffSmall(f: Format, negative: bool, s: nat, count: nat, e: int, x: real)
    requires 0 < s && Counted(10, s, count) && x == s as real * RPow(10, e) && count - 1 + e < -4_967
    ensures 0.0 < x && CorrectlyRounded(f, negative, x, Zero(negative))
  {
    hide RPow, Pow, CorrectlyRounded, Zero;
    DecimalScale(s, count, e, x);
    RPowMono(10, count + e, -4967);
    SmallVanishes(x, f, negative);
  }

  lemma {:induction false} ScaledUp(f: Format, negative: bool, s: nat, e: nat, x: real)
    requires x == s as real * RPow(10, e)
    ensures CorrectlyRounded(f, negative, x, RoundExact(negative, s * Pow(10, e), 0, false, f))
  {
    hide RPow, Pow, Val, CorrectlyRounded, RoundExact;
    RPowNat(10, e);
    RealMul(s, Pow(10, e));
    ValWhole(s * Pow(10, e));
    WholeRounded(negative, s * Pow(10, e), 0, f);
  }

  lemma {:induction false} ScaledDown(f: Format, negative: bool, s: nat, e: int, x: real)
    requires 0 < s && 0 <= e && x == s as real * RPow(10, -e)
    ensures CorrectlyRounded(f, negative, x, RoundQuotient(negative, s, Pow(10, e), 0, f))
  {
    hide RPow, Pow, Val, CorrectlyRounded, RoundQuotient;
    RPowNat(10, e);
    RPowInverse(10, e);
    RMulAssoc(s as real, RPow(10, -e), RPow(10, e));
    ValWhole(s);
    ValWhole(Pow(10, e));
    QuotientRounded(negative, s, 0, Pow(10, e), 0, f, x);
  }

  /** Reads a decimal numeral: malformed texts are exactly those that spell none. */
  method ParseDecimal(text: string, negative: bool, f: Format) returns (r: ParseResult)
    ensures r.status != MALFORMED <==> exists n :: ValidNumeral(false, n) && Spell(n) == text
    ensures r.status == MALFORMED ==> r.value == Zero(false)
    ensures forall n :: ValidNumeral(false, n) && Spell(n) == text ==> ReadsAs(f, negative, KeptValue(false, n), r)
  {
    hide *;
    var number, n := ScanNumber(text, false);
    if number.None? { return ParseResult(Zero(false), MALFORMED); }
    r := ReadDecimal(number.value, negative, f, n);
    forall m | ValidNumeral(false, m) && Spell(m) == text
      ensures ReadsAs(f, negative, KeptValue(false, m), r)
    {
      SpellUnique(false, n, m);
    }
  }

  method ReadDecimal(number: Scanned, negative: bool, f: Format, ghost n: Numeral) returns (r: ParseResult)
    requires ValidNumeral(false, n) && number == Scanned(n.whole, n.fraction, Saturated(WrittenExponent(n)))
    ensures r.status != MALFORMED && ReadsAs(f, negative, KeptValue(false, n), r)
  {
    hide RPow, Pow, RoundExact, CorrectlyRounded, RoundQuotient, Zero, Infinity, IsZero, IsInfinite, ValidNumeral,
         DigitsValue, Threshold, Counted, Saturated, WrittenExponent;
    var significand, significantDigits := ReadSignificand(false, number.whole, number.fraction, n);
    var exponent := number.exponent - |number.fraction|;
    ghost var x := significand as real * RPow(10, exponent);
    assert x == KeptValue(false, n);
    if significand == 0 {
      ZeroReads(f, negative);
      return ParseResult(Zero(negative), OK);
    }

    // `LargeOverflows` and `SmallVanishes` settle these two without a power of ten.
    var scientificExponent := significantDigits - 1 + exponent;
    if scientificExponent > 4_933 {
      CutoffLarge(f, negative, significand, significantDigits, exponent, x);
      InfinityReads(f, negative, x);
      return ParseResult(Infinity(negative), TOO_LARGE);
    }
    if scientificExponent < -4_967 {
      CutoffSmall(f, negative, significand, significantDigits, exponent, x);
      VanishedReads(f, negative, x);
      return ParseResult(Zero(negative), TOO_SMALL);
    }
    PositiveScaled(significand, exponent);
    var value;
    if exponent >= 0 {
      ScaledUp(f, negative, significand, exponent, x);
      value := RoundExact(negative, significand * Pow(10, exponent), 0, false, f);
    } else {
      ScaledDown(f, negative, significand, -exponent, x);
      value := RoundQuotient(negative, significand, Pow(10, -exponent), 0, f);
    }
    return ParseResult(value, StatusOf(value));
  }

  lemma {:induction false} PositiveScaled(s: nat, e: int)
    requires 0 < s
    ensures 0.0 < s as real * RPow(10, e)
  {
    hide RPow;
    RMulStrict(0.0, s as real, RPow(10, e));
  }

  // ----- Hexadecimal ------------------------------------------------------------------------------

  method ParseHex(text: string, negative: bool, f: Format) returns (r: ParseResult)
    ensures r.status != MALFORMED <==> exists n :: ValidNumeral(true, n) && Spell(n) == text
    ensures r.status == MALFORMED ==> r.value == Zero(false)
    ensures forall n :: ValidNumeral(true, n) && Spell(n) == text ==> ReadsAs(f, negative, KeptValue(true, n), r)
  {
    hide *;
    var number, n := ScanNumber(text, true);
    if number.None? { return ParseResult(Zero(false), MALFORMED); }
    r := ReadHex(number.value, negative, f, n);
    forall m | ValidNumeral(true, m) && Spell(m) == text
      ensures ReadsAs(f, negative, KeptValue(true, m), r)
    {
      SpellUnique(true, n, m);
    }
  }

  method ReadHex(number: Scanned, negative: bool, f: Format, ghost n: Numeral) returns (r: ParseResult)
    requires ValidNumeral(true, n) && number == Scanned(n.whole, n.fraction, Saturated(WrittenExponent(n)))
    ensures r.status != MALFORMED && ReadsAs(f, negative, KeptValue(true, n), r)
  {
    hide Val, RoundExact, CorrectlyRounded, Zero, Infinity, IsZero, IsInfinite, ValidNumeral,
         DigitsValue, Counted, Saturated, WrittenExponent;
    var significand, count := ReadSignificand(true, number.whole, number.fraction, n);
    var exponent := number.exponent - 4 * |number.fraction|;
    assert Val(significand, exponent) == KeptValue(true, n);
    ZeroValue(exponent);
    if significand == 0 {
      ZeroReads(f, negative);
      return ParseResult(Zero(negative), OK);
    }
    ValStrict(0, significand, exponent);
    WholeRounded(negative, significand, exponent, f);
    var value := RoundExact(negative, significand, exponent, false, f);
    return ParseResult(value, StatusOf(value));
  }

  // ----- When clipping the exponent shows ---------------------------------------------------------

  /** The clipped and the written number agree, or both vanish, overflow, or become the smallest
      positive value of the format. */
  predicate ClippingHidden(hex: bool, n: Numeral, f: Format)
  {
    var x, y, e := KeptValue(hex, n), NumeralValue(hex, n), WrittenExponent(n);
    || DigitsValue(hex, n) == 0
    || -SATURATION <= e <= SATURATION
    || (SATURATION < e && Alike(f, x, y))
    || (e < -SATURATION && Alike(f, y, x))
  }

  /** A number with at most `count` digits, `places` of them after the point, lies between powers of
      the base that grow with the exponent. */
  lemma {:induction false} ScaledBounds(hex: bool, s: nat, e: int, count: nat, places: nat)
    requires 0 < s < Pow(Base(hex), count)
    ensures hex ==> Two(e - 4 * places) <= Scaled(hex, s, e, places) < Two(4 * count + e - 4 * places)
    ensures !hex ==> RPow(10, e - places) <= Scaled(hex, s, e, places) < RPow(10, count + e - places)
  {
    hide RPow, Pow, P2, Two, Val;
    if hex {
      var k := e - 4 * places;
      SixteenIsTwo(count);
      ValPower(0, k);
      P2Zero();
      ValPower(4 * count, k);
      if 1 < s { ValStrict(1, s, k); }
      ValStrict(s, P2(4 * count), k);
    } else {
      var k := e - places;
      hide Times;
      RPowNat(10, count);
      RPowTimes(10, count, k);
      TimesBounds(1.0, s as real, Pow(10, count) as real, RPow(10, k));
    }
  }

  lemma {:induction false} SixteenIsTwo(count: nat)
    ensures Pow(16, count) == P2(4 * count)
  {
    PowPow(2, 4, count);
    assert Pow(2, 4) == 16;
  }

  lemma {:induction false} ClippedHigh(hex: bool, s: nat, e: int, count: nat, places: nat, f: Format)
    requires 0 < s < Pow(Base(hex), count) && SATURATION <= e && places <= count
    requires (if hex then 4 else 1) * count + 17_000 <= SATURATION
    ensures Scaled(hex, s, e, places) >= Threshold(f)
  {
    hide RPow, Pow, P2, Two, Threshold, Scaled;
    ScaledBounds(hex, s, e, count, places);
    if hex {
      TwoMono(17_000, e - 4 * places);
      FarOverflow(f, Scaled(hex, s, e, places), 17_000);
    } else {
      RPowMono(10, 4934, e - places);
      LargeOverflows(Scaled(hex, s, e, places), f);
    }
  }

  lemma {:induction false} ClippedLow(hex: bool, s: nat, e: int, count: nat, places: nat, f: Format)
    requires 0 < s < Pow(Base(hex), count) && e <= -SATURATION && places <= count
    requires (if hex then 4 else 1) * count + 17_000 <= SATURATION
    ensures Scaled(hex, s, e, places) <= Two(Quantum(f) - 1)
  {
    hide RPow, Pow, P2, Two, CorrectlyRounded, Scaled, Zero;
    ScaledBounds(hex, s, e, count, places);
    if hex {
      TwoMono(4 * count + e - 4 * places, Quantum(f) - 1);
    } else {
      RPowMono(10, count + e - places, -4967);
      NonzeroScaled(hex, s, e, places);
      SmallVanishes(Scaled(hex, s, e, places), f, false);
    }
  }

  lemma {:induction false} DigitsBelow(hex: bool, n: Numeral)
    requires ValidNumeral(hex, n)
    ensures DigitsValue(hex, n) < Pow(Base(hex), |n.whole| + |n.fraction|)
  {
    hide Pow, ValueIn;
    NumeralDigits(hex, n);
    assert forall i :: 0 <= i < |n.whole| + |n.fraction| ==> DigitOf((n.whole + n.fraction)[i]) < Base(hex);
    ValueBound(Base(hex), n.whole + n.fraction);
  }

  lemma {:induction false} NumeralScaled(hex: bool, n: Numeral)
    ensures NumeralValue(hex, n) == Scaled(hex, DigitsValue(hex, n), WrittenExponent(n), |n.fraction|)
  {
    hide RPow, Two, DigitsValue, WrittenExponent;
  }

  lemma {:induction false} KeptScaled(hex: bool, n: Numeral)
    ensures KeptValue(hex, n) == Scaled(hex, DigitsValue(hex, n), Saturated(WrittenExponent(n)), |n.fraction|)
    ensures var e := WrittenExponent(n); Saturated(e) == if e > SATURATION then SATURATION else if e < -SATURATION then -SATURATION else e
  {
    hide Scaled, DigitsValue, WrittenExponent;
  }

  /** One more in the exponent at least doubles the number. */
  lemma {:induction false} ScaledDoubles(hex: bool, s: nat, low: int, high: int, places: nat)
    requires 0 < s && low < high
    ensures 0.0 < 2.0 * Scaled(hex, s, low, places) <= Scaled(hex, s, high, places)
  {
    hide RPow, Two;
    NonzeroScaled(hex, s, low, places);
    if hex {
      var k := low - 4 * places;
      TwoStep(k);
      TwoMono(k + 1, high - 4 * places);
      DoubledProduct(s as real, Two(k), Two(high - 4 * places));
    } else {
      var k := low - places;
      RPowStep(10, k);
      RPowMono(10, k + 1, high - places);
      DoubledProduct(s as real, RPow(10, k), RPow(10, high - places));
    }
  }

  lemma {:induction false} DoubledProduct(s: real, t: real, t': real)
    requires 0.0 <= s && 2.0 * t <= t'
    ensures 2.0 * (s * t) <= s * t'
  {
    RMulMono(2.0 * t, t', s);
  }

  /** Clipping the exponent leaves what a numeral rounds to unchanged exactly when it is hidden. */
  lemma {:induction false} SaturationExact(hex: bool, n: Numeral, f: Format, negative: bool)
    ensures (forall bits: nat :: CorrectlyRounded(f, negative, KeptValue(hex, n), bits)
                            <==> CorrectlyRounded(f, negative, NumeralValue(hex, n), bits))
        <==> ClippingHidden(hex, n, f)
    ensures KeptValue(hex, n) == 0.0 <==> NumeralValue(hex, n) == 0.0
  {
    hide Scaled, DigitsValue, WrittenExponent, NumeralValue, KeptValue, CorrectlyRounded, Alike, Saturated;
    var s, e, places := DigitsValue(hex, n), WrittenExponent(n), |n.fraction|;
    NumeralScaled(hex, n);
    KeptScaled(hex, n);
    if s == 0 {
      ZeroScaled(hex, e, places);
      ZeroScaled(hex, Saturated(e), places);
    } else {
      NonzeroScaled(hex, s, e, places);
      NonzeroScaled(hex, s, Saturated(e), places);
      if e > SATURATION {
        ScaledDoubles(hex, s, SATURATION, e, places);
        AlikeExact(f, negative, KeptValue(hex, n), NumeralValue(hex, n));
      } else if e < -SATURATION {
        ScaledDoubles(hex, s, e, -SATURATION, places);
        AlikeExact(f, negative, NumeralValue(hex, n), KeptValue(hex, n));
      }
    }
  }

  /** Texts of up to a million million characters or so either keep their exponent, or denote numbers
      that are infinite or zero in every format. */
  predicate ShortEnough(hex: bool, n: Numeral)
  {
    || -SATURATION <= WrittenExponent(n) <= SATURATION
    || (if hex then 4 else 1) * (|n.whole| + |n.fraction|) + 17_000 <= SATURATION
  }

  /** In them clipping never shows. */
  lemma {:induction false} SaturationHarmless(hex: bool, n: Numeral, f: Format)
    requires ValidNumeral(hex, n) && ShortEnough(hex, n)
    ensures ClippingHidden(hex, n, f)
  {
    hide DigitsValue, WrittenExponent, NumeralValue, KeptValue, Scaled, Pow, RPow, P2, Two, Threshold, Saturated, ValidNumeral;
    var e := WrittenExponent(n);
    if DigitsValue(hex, n) != 0 {
      if e > SATURATION {
        ShortHigh(hex, n, f);
      } else if e < -SATURATION {
        ShortLow(hex, n, f);
      }
    }
  }

  lemma {:induction false} ShortHigh(hex: bool, n: Numeral, f: Format)
    requires ValidNumeral(hex, n) && DigitsValue(hex, n) != 0 && WrittenExponent(n) > SATURATION
    requires (if hex then 4 else 1) * (|n.whole| + |n.fraction|) + 17_000 <= SATURATION
    ensures Threshold(f) <= KeptValue(hex, n)
  {
    hide *;
    KeptScaled(hex, n);
    DigitsBelow(hex, n);
    ClippedHigh(hex, DigitsValue(hex, n), SATURATION, |n.whole| + |n.fraction|, |n.fraction|, f);
  }

  lemma {:induction false} ShortLow(hex: bool, n: Numeral, f: Format)
    requires ValidNumeral(hex, n) && DigitsValue(hex, n) != 0 && WrittenExponent(n) < -SATURATION
    requires (if hex then 4 else 1) * (|n.whole| + |n.fraction|) + 17_000 <= SATURATION
    ensures KeptValue(hex, n) <= Two(Quantum(f) - 1)
  {
    hide *;
    KeptScaled(hex, n);
    DigitsBelow(hex, n);
    ClippedLow(hex, DigitsValue(hex, n), -SATURATION, |n.whole| + |n.fraction|, |n.fraction|, f);
  }

  /** A point followed by a million million zeros and a one, moved back by the exponent: the text
      denotes one and is read as a tenth. */
  function Overlong(): Numeral
  {
    Numeral("", true, seq(SATURATION, i => '0') + "1", Some(ExponentPart('e', Decimal(SATURATION + 1))))
  }

  lemma {:induction false} OverlongParts()
    ensures ValidNumeral(false, Overlong()) && WrittenExponent(Overlong()) == SATURATION + 1
    ensures DigitsValue(false, Overlong()) == 1 && |Overlong().fraction| == SATURATION + 1
  {
    hide ValueIn, Decimal;
    var zeros := seq(SATURATION, i => '0');
    var text := Decimal(SATURATION + 1);
    DecimalValue(SATURATION + 1);
    assert ExponentDigits(text) == text;
    ValueZeros(10, zeros);
    ValueAppend(10, zeros, '1');
    assert "" + (zeros + "1") == zeros + ['1'];
    assert forall i :: 0 <= i < |zeros| ==> IsDigit(false, zeros[i]);
    assert AllDigits(false, zeros + "1");
  }

  /** Past that length the promise fails: no pattern is the rounding of both numbers. */
  lemma {:induction false} OverlongMisread(f: Format, negative: bool, bits: nat)
    ensures ValidNumeral(false, Overlong()) && !ShortEnough(false, Overlong())
    ensures NumeralValue(false, Overlong()) == 1.0 && KeptValue(false, Overlong()) == 0.1
    ensures CorrectlyRounded(f, negative, KeptValue(false, Overlong()), bits)
        ==> !CorrectlyRounded(f, negative, NumeralValue(false, Overlong()), bits)
  {
    OverlongParts();
    hide Overlong, RPow, Two, Threshold, ValidNumeral, DigitsValue, WrittenExponent;
    RPowZero(10);
    RPowStep(10, -1);
    ValWhole(1);
    ZeroValue(Quantum(f));
    ZeroInFormat(f);
    P2Zero();
    P2Strict(0, Precision(f));
    hide P2, Pow, Val;
    assert InFormat(f, 1, 0);
    BelowThreshold(f, 1, 0);
    if CorrectlyRounded(f, negative, 1.0, bits) && CorrectlyRounded(f, negative, 0.1, bits) {
      RoundedExact(f, negative, 1, 0, bits);
    }
  }

  lemma {:induction false} ZeroScaled(hex: bool, e: int, places: nat)
    ensures Scaled(hex, 0, e, places) == 0.0
  {
    hide RPow, Two;
  }

  lemma {:induction false} NonzeroScaled(hex: bool, s: nat, e: int, places: nat)
    requires 0 < s
    ensures Scaled(hex, s, e, places) > 0.0
  {
    hide RPow, Two;
    RMulStrict(0.0, s as real, if hex then Two(e - 4 * places) else RPow(10, e - places));
  }

  // ----- Whole texts ------------------------------------------------------------------------------

  /** An optional sign, an optional hexadecimal prefix, and a numeral. */
  datatype FloatText = FloatText(sign: string, prefix: string, numeral: Numeral)

  predicate ValidText(t: FloatText)
  {
    && t.sign in ["", "+", "-"] && t.prefix in ["", "0x", "0X"]
    && ValidNumeral(IsHex(t), t.numeral)
  }

  predicate IsHex(t: FloatText)
  {
    t.prefix != ""
  }

  predicate IsNegative(t: FloatText)
  {
    t.sign == "-"
  }

  function SpellText(t: FloatText): string
  {
    t.sign + (t.prefix + Spell(t.numeral))
  }

  /** A numeral starts with a digit or a point, and no decimal one with `0x`. */
  lemma {:induction false} NumeralStart(hex: bool, n: Numeral)
    requires ValidNumeral(hex, n)
    ensures Spell(n) != "" && !IsSign(Spell(n)[0]) && (IsDigit(hex, Spell(n)[0]) || Spell(n)[0] == '.')
    ensures !hex && 1 < |Spell(n)| ==> Spell(n)[1] != 'x' && Spell(n)[1] != 'X'
  {
    TailStarts(hex, n);
    if n.whole != "" {
      assert IsDigit(hex, n.whole[0]);
      assert Spell(n)[0] == n.whole[0];
      if 1 < |n.whole| {
        assert IsDigit(hex, n.whole[1]) && Spell(n)[1] == n.whole[1];
      } else if SpellFraction(n) != "" {
        assert Spell(n)[1] == SpellFraction(n)[0];
      }
    } else {
      assert Spell(n) == SpellFraction(n) && IsDigit(hex, n.fraction[0]);
      assert Spell(n)[0] == '.' && Spell(n)[1] == n.fraction[0];
    }
  }

  /** What is left of a text after its sign and prefix, as the parser takes them off. */
  function SignLength(text: string): nat
  {
    if text != "" && IsSign(text[0]) then 1 else 0
  }

  predicate HasPrefix(body: string)
  {
    |body| > 2 && body[0] == '0' && (body[1] == 'x' || body[1] == 'X')
  }

  /** The parser takes a valid text apart the way it was put together. */
  lemma {:induction false} TextParts(t: FloatText)
    requires ValidText(t)
    ensures var text := SpellText(t); var body := text[SignLength(text)..];
      && SignLength(text) == |t.sign| && (IsNegative(t) <==> text != "" && text[0] == '-')
      && (HasPrefix(body) <==> IsHex(t))
      && Spell(t.numeral) == if IsHex(t) then body[2..] else body
  {
    NumeralStart(IsHex(t), t.numeral);
    hide ValidNumeral, Spell;
    var text := SpellText(t);
    var rest := t.prefix + Spell(t.numeral);
    if t.sign != "" { assert text[0] == t.sign[0]; } else { assert text == rest && text[0] == rest[0]; }
    assert text[|t.sign|..] == rest;
    if IsHex(t) { assert rest[2..] == Spell(t.numeral); } else { assert rest == Spell(t.numeral); }
  }

  lemma {:induction false} TextFrom(text: string, n: Numeral) returns (t: FloatText)
    requires var body := text[SignLength(text)..];
      ValidNumeral(HasPrefix(body), n) && Spell(n) == if HasPrefix(body) then body[2..] else body
    ensures ValidText(t) && SpellText(t) == text
  {
    hide ValidNumeral, Spell;
    var body := text[SignLength(text)..];
    t := FloatText(text[..SignLength(text)], if HasPrefix(body) then body[..2] else "", n);
    if HasPrefix(body) {
      assert body[..2] == "0x" || body[..2] == "0X";
    }
    assert body == t.prefix + Spell(n);
    assert t.sign == "" || t.sign == "+" || t.sign == "-";
    assert text == t.sign + body;
  }

  /** Reads a float: a text is malformed exactly when it is none, and every other text becomes the
      correct rounding of its number. */
  method Parse(text: string, f: Format) returns (r: ParseResult)
    ensures r.status != MALFORMED <==> exists t :: ValidText(t) && SpellText(t) == text
    ensures r.status == MALFORMED ==> r.value == Zero(false)
    ensures forall t :: ValidText(t) && SpellText(t) == text ==>
              ReadsAs(f, IsNegative(t), KeptValue(IsHex(t), t.numeral), r)
  {
    hide ValidNumeral, Spell, CorrectlyRounded, Zero, KeptValue;
    var negative := false;
    var body := text;
    if text != "" && (text[0] == '+' || text[0] == '-') {
      negative := text[0] == '-';
      body := text[1..];
    }
    assert body == text[SignLength(text)..];
    var hex := |body| > 2 && body[0] == '0' && (body[1] == 'x' || body[1] == 'X');
    if hex {
      body := body[2..];
      r := ParseHex(body, negative, f);
    } else {
      r := ParseDecimal(body, negative, f);
    }
    forall t | ValidText(t) && SpellText(t) == text
      ensures ValidNumeral(hex, t.numeral) && Spell(t.numeral) == body && IsHex(t) == hex && IsNegative(t) == negative
    {
      TextParts(t);
    }
    if r.status != MALFORMED {
      ghost var n :| ValidNumeral(hex, n) && Spell(n) == body;
      ghost var t := TextFrom(text, n);
    }
  }

  /** What a text is read as is right for the number it denotes exactly when clipping is hidden. */
  lemma {:induction false} ParsedExactly(t: FloatText, f: Format, r: ParseResult)
    requires ReadsAs(f, IsNegative(t), KeptValue(IsHex(t), t.numeral), r)
    ensures ReadsAs(f, IsNegative(t), NumeralValue(IsHex(t), t.numeral), r) <==> ClippingHidden(IsHex(t), t.numeral, f)
  {
    hide CorrectlyRounded, KeptValue, NumeralValue, ClippingHidden;
    var x, y := KeptValue(IsHex(t), t.numeral), NumeralValue(IsHex(t), t.numeral);
    SaturationExact(IsHex(t), t.numeral, f, IsNegative(t));
    if CorrectlyRounded(f, IsNegative(t), y, r.value) {
      SameRoundings(f, IsNegative(t), x, y, r.value);
    }
  }

  /** So every text of ordinary length is read as the number it denotes. */
  lemma {:induction false} ParsedCorrectly(t: FloatText, f: Format, r: ParseResult)
    requires ValidText(t) && ShortEnough(IsHex(t), t.numeral)
    requires ReadsAs(f, IsNegative(t), KeptValue(IsHex(t), t.numeral), r)
    ensures ReadsAs(f, IsNegative(t), NumeralValue(IsHex(t), t.numeral), r)
  {
    hide ValidNumeral, ReadsAs, KeptValue, NumeralValue, ShortEnough, ClippingHidden;
    SaturationHarmless(IsHex(t), t.numeral, f);
    ParsedExactly(t, f, r);
  }
}
