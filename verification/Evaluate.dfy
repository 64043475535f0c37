/** From approximations to results: what is returned for an exponential, a sine, a cosine or a tangent
    is the correct rounding of the number its series approach. */
module Evaluate {
  import opened Powers
  import opened Limbs
  import opened Digits
  import opened Formats
  import opened Rounding
  import opened FloatMath
  import opened Limits
  import opened Series
  import opened Constants
  import opened Angles
  import opened TrueArguments

  /** A signed fixed-point number and the half-width of the interval that holds the true one, in units
      of its last place. */
  datatype Approximation = Approximation(negative: bool, center: nat, error: nat, exponent: int)

  // ----- Sums of series -----------------------------------------------------------------------------

  function Sums(kind: Kind, first: real, x: real): nat -> real
  {
    (m: nat) => PartialSum(kind, first, x, m)
  }

  /** The number a series approaches. */
  ghost predicate HasSum(kind: Kind, first: real, x: real, sum: real)
  {
    IsLimit(Sums(kind, first, x), sum)
  }

  lemma {:induction false} SumNear(kind: Kind, first: real, x: real, value: real, terms: nat, error: real, sum: real)
    requires SumsWithin(kind, first, x, value, terms, error) && HasSum(kind, first, x, sum)
    ensures Abs(value - sum) <= error
  {
    hide PartialSum;
    var s := Sums(kind, first, x);
    assert forall m: nat :: s(m) == PartialSum(kind, first, x, m);
    LimitWithin(s, sum, value, error, terms + 1);
  }

  lemma {:induction false} SettledNear(kind: Kind, first: real, x: real, value: real, terms: nat, error: real, sum: real)
    requires SettledWithin(kind, first, x, value, terms, error) && HasSum(kind, first, x, sum)
    ensures Abs(value - AtLeastZero(sum)) <= error
  {
    hide PartialSum;
    var s, z := Sums(kind, first, x), (m: nat) => AtLeastZero(PartialSum(kind, first, x, m));
    assert forall m: nat :: z(m) == AtLeastZero(s(m));
    LimitAtLeastZero(s, z, sum);
    LimitWithin(z, AtLeastZero(sum), value, error, terms + 1);
  }

  lemma {:induction false} LimitAtLeastZero(s: nat -> real, z: nat -> real, limit: real)
    requires IsLimit(s, limit) && forall m: nat :: z(m) == AtLeastZero(s(m))
    ensures IsLimit(z, AtLeastZero(limit))
  {
    forall distance: real | 0.0 < distance
      ensures EventuallyClose(z, AtLeastZero(limit), distance)
    {
      assert EventuallyClose(s, limit, distance);
      var n: nat :| CloseFrom(s, limit, distance, n);
      assert CloseFrom(z, AtLeastZero(limit), distance, n);
    }
  }

  /** Series are linear in their first term. */
  lemma {:induction false} TermScaled(kind: Kind, u: real, first: real, x: real, k: nat)
    ensures Term(kind, Times(u, first), x, k) == Times(u, Term(kind, first, x, k))
  {
    hide Term, Divisor, Times;
    FirstTerm(kind, Times(u, first), x);
    FirstTerm(kind, first, x);
    if k > 0 {
      TermScaled(kind, u, first, x, k - 1);
      var a := TermStep(kind, Times(u, first), x, k);
      var b := TermStep(kind, first, x, k);
      ScaledStep(u, Term(kind, first, x, k - 1), x, Divisor(kind, k) as real, Term(kind, first, x, k),
                 Term(kind, Times(u, first), x, k));
    }
  }

  lemma {:induction false} ScaledStep(u: real, t: real, x: real, d: real, next: real, scaled: real)
    requires 0.0 < d && Times(next, d) == Times(t, x) && Times(scaled, d) == Times(Times(u, t), x)
    ensures scaled == Times(u, next)
  {
    RMulAssoc(u, t, x);
    RMulAssoc(u, next, d);
    var p, q := scaled * d, (u * next) * d;
    ScaledOrder(p, q, scaled, u * next, d);
    ScaledOrder(q, p, u * next, scaled, d);
  }

  lemma {:induction false} PartialSumScaled(kind: Kind, u: real, first: real, x: real, m: nat)
    ensures PartialSum(kind, Times(u, first), x, m) == Times(u, PartialSum(kind, first, x, m))
  {
    hide Term, PartialSum, Times;
    SumStep(kind, Times(u, first), x, if m > 0 then m - 1 else 0);
    SumStep(kind, first, x, if m > 0 then m - 1 else 0);
    TimesSum(u, 0.0, 0.0);
    if m > 0 {
      PartialSumScaled(kind, u, first, x, m - 1);
      TermScaled(kind, u, first, x, m - 1);
      TimesSum(u, PartialSum(kind, first, x, m - 1), Term(kind, first, x, m - 1));
      TimesSum(u, PartialSum(kind, first, x, m - 1), -Term(kind, first, x, m - 1));
    }
  }

  lemma {:induction false} SumScaled(kind: Kind, u: real, first: real, x: real, sum: real)
    requires 0.0 < u && HasSum(kind, first, x, sum)
    ensures HasSum(kind, Times(u, first), x, Times(u, sum))
  {
    hide PartialSum;
    var s, z := Sums(kind, first, x), Sums(kind, Times(u, first), x);
    forall m: nat
      ensures z(m) == Times(u, s(m))
    {
      PartialSumScaled(kind, u, first, x, m);
    }
    LimitScaled(s, z, u, sum);
  }

  lemma {:induction false} LimitScaled(s: nat -> real, z: nat -> real, u: real, limit: real)
    requires 0.0 < u && IsLimit(s, limit) && forall m: nat :: z(m) == Times(u, s(m))
    ensures IsLimit(z, Times(u, limit))
  {
    forall distance: real | 0.0 < distance
      ensures EventuallyClose(z, Times(u, limit), distance)
    {
      var d := distance / u;
      assert d * u == distance;
      assert 0.0 < d by { ScaledOrder(0.0, distance, 0.0, d, u); }
      assert EventuallyClose(s, limit, d);
      var n: nat :| CloseFrom(s, limit, d, n);
      forall m: nat | n <= m
        ensures Abs(z(m) - Times(u, limit)) < distance
      {
        assert Abs(s(m) - limit) < d;
        CloseScaled(u, s(m), limit, d, distance);
      }
      assert CloseFrom(z, Times(u, limit), distance, n);
    }
  }

  lemma {:induction false} CloseScaled(u: real, s: real, limit: real, d: real, distance: real)
    requires 0.0 < u && d * u == distance && Abs(s - limit) < d
    ensures Abs(Times(u, s) - Times(u, limit)) < distance
  {
    RDistribute(s, limit, u);
    AbsScale(s - limit, u);
    RMulStrict(Abs(s - limit), d, u);
  }

  // ----- Deciding -----------------------------------------------------------------------------------

  function DecideOn(a: Approximation, f: Format): Option<nat>
  {
    Decide(a.negative, a.center, a.error, a.exponent, f)
  }

  /** Anything within the error of a decided approximation is positive, and rounds to the result. */
  lemma {:induction false} Decided(a: Approximation, f: Format, bits: nat, z: real)
    requires DecideOn(a, f) == Some(bits) && Abs(z - a.center as real) <= a.error as real
    ensures 0.0 < z && CorrectlyRounded(f, a.negative, Times(z, Two(a.exponent)), bits)
  {
    hide CorrectlyRounded, Two, RPow, Decide, Val, Times;
    DecideCorrect(a.negative, a.center, a.error, a.exponent, f, bits);
    var low, high := a.center - a.error, a.center + a.error;
    ValTimes(low, a.exponent);
    ValTimes(high, a.exponent);
    TimesOrder(low as real, z, Two(a.exponent));
    TimesOrder(z, high as real, Two(a.exponent));
    assert WithinError(Times(z, Two(a.exponent)), a.center, a.error, a.exponent);
  }

  /** And if nothing is decided, something within twice the error rounds to another result, or is not
      positive. */
  lemma {:induction false} Undecided(a: Approximation, f: Format, z: real, bits: nat) returns (y: real)
    requires DecideOn(a, f) == None && Abs(z - a.center as real) <= a.error as real
    ensures Abs(y - z) <= 2.0 * a.error as real
    ensures y <= 0.0 || !CorrectlyRounded(f, a.negative, Times(y, Two(a.exponent)), bits)
  {
    hide CorrectlyRounded, Two, RPow, Decide, Val, Times;
    if a.center <= a.error {
      y := a.center as real - a.error as real;
    } else {
      DecideCorrect(a.negative, a.center, a.error, a.exponent, f, bits);
      var low, high := a.center - a.error, a.center + a.error;
      var v: real :| WithinError(v, a.center, a.error, a.exponent) && !CorrectlyRounded(f, a.negative, v, bits);
      ValTimes(low, a.exponent);
      ValTimes(high, a.exponent);
      y := UnitsOf(v, Two(a.exponent), low as real, high as real);
    }
  }

  lemma {:induction false} UnitsOf(v: real, u: real, low: real, high: real) returns (y: real)
    requires 0.0 < u && Times(low, u) <= v <= Times(high, u)
    ensures v == Times(y, u) && low <= y <= high
  {
    y := v / u;
    DivideBack(v, u);
    ScaledOrder(low * u, v, low, y, u);
    ScaledOrder(v, high * u, y, high, u);
  }

  // ----- Working precisions -------------------------------------------------------------------------

  function MagnitudeOf(value: int): nat
  {
    if value < 0 then -value else value
  }

  /** The errors allowed grow no faster than the precision and the scale. */
  function ErrorLimit(precision: nat, scale: int): nat
  {
    88 + 8 * precision + 8 * MagnitudeOf(scale)
  }

  /** The precisions tried: from 64 bits more than the format's, doubled each time. */
  function WorkingPrecision(f: Format, attempt: nat): (p: nat)
    ensures 64 <= p
  {
    MulMono(1, P2(attempt), Precision(f) + 64);
    (Precision(f) + 64) * P2(attempt)
  }

  lemma {:induction false} FirstPrecision(f: Format)
    ensures WorkingPrecision(f, 0) == Precision(f) + 64
  {
    P2Zero();
  }

  lemma {:induction false} NextPrecision(f: Format, attempt: nat)
    ensures WorkingPrecision(f, attempt + 1) == WorkingPrecision(f, attempt) * 2
  {
    hide P2, Pow;
    P2Step(attempt);
    MulAssoc(Precision(f) + 64, P2(attempt), 2);
  }

  lemma {:induction false} LaterPrecisions(f: Format, from: nat, to: nat)
    requires from <= to
    ensures WorkingPrecision(f, from) <= WorkingPrecision(f, to)
  {
    hide P2, Pow;
    P2Mono(from, to);
    MulMono(P2(from), P2(to), Precision(f) + 64);
  }

  lemma {:induction false} ValTimes(m: nat, k: int)
    ensures Val(m, k) == Times(m as real, Two(k))
  {
    hide Two;
  }

  lemma {:induction false} TimesOrder(a: real, b: real, u: real)
    requires a <= b && 0.0 <= u
    ensures Times(a, u) <= Times(b, u)
  {
    RMulMono(a, b, u);
  }

  // ----- Exponentials -------------------------------------------------------------------------------

  function SignedMagnitude(x: Parts): real
  {
    if x.negative then -Val(x.significand, x.exponent) else Val(x.significand, x.exponent)
  }

  /** The argument with a multiple of ln 2 taken off: `e^x` is `2^scale * e^Reduced`, and so is `2^x`
      with the whole part taken off and the rest multiplied by ln 2. */
  function Reduced(base2: bool, x: Parts, scale: int, ln2: real): real
  {
    if base2 then Times(SignedMagnitude(x) - scale as real, ln2) else SignedMagnitude(x) - Times(scale as real, ln2)
  }

  /** How far the fixed-point remainder is from the reduced argument, in units. */
  lemma {:induction false} ReducedNear(x: Parts, precision: nat, l: nat, fixed: nat, k: nat, rest: int, scale: int, ln2: real)
    requires Abs(Times(P2(precision) as real, ln2) - l as real) < 2.0 && fixed == ToFixed(x, precision)
    requires if x.negative then rest == k * l - fixed && scale == -(k as int) else rest == fixed - k * l && scale == k
    ensures Abs(Times(P2(precision) as real, Reduced(false, x, scale, ln2)) - rest as real) <= 1.0 + 2.0 * k as real
  {
    hide P2, Pow, Val, ToFixed;
    ToFixedNear(x, precision);
    RealMul(k, l);
    ReducedDistance(P2(precision) as real, Val(x.significand, x.exponent), ln2, fixed as real, l as real, k as real,
                    Times(P2(precision) as real, Val(x.significand, x.exponent)), Times(P2(precision) as real, ln2));
  }

  lemma {:induction false} ReducedDistance(u: real, x: real, ln2: real, fixed: real, l: real, k: real, ux: real, ul: real)
    requires ux == Times(u, x) && ul == Times(u, ln2) && 0.0 <= k && fixed <= ux < fixed + 1.0 && Abs(ul - l) < 2.0
    ensures Abs(Times(u, x - Times(k, ln2)) - (fixed - k * l)) <= 1.0 + 2.0 * k
    ensures Abs(Times(u, -x - Times(-k, ln2)) - (k * l - fixed)) <= 1.0 + 2.0 * k
  {
    hide Times;
    DistributeReduced(u, x, k, ln2);
    DistributeReduced(u, -x, -k, ln2);
    NegatedProducts(u, x, k, ul);
    ScaledGap(k, ul, l);
  }

  lemma {:induction false} DistributeReduced(u: real, x: real, k: real, ln2: real)
    ensures Times(u, x - Times(k, ln2)) == Times(u, x) - Times(k, Times(u, ln2))
  {
    RDistribute(x, k * ln2, u);
    RMulAssoc(k, ln2, u);
  }

  lemma {:induction false} NegatedProducts(u: real, x: real, k: real, ul: real)
    ensures Times(u, -x) == -Times(u, x) && Times(-k, ul) == -Times(k, ul)
  {
  }

  lemma {:induction false} ScaledGap(k: real, ul: real, l: real)
    requires 0.0 <= k && Abs(ul - l) < 2.0
    ensures Abs(Times(k, ul) - k * l) <= 2.0 * k
  {
    RDistribute(ul, l, k);
    RMulMono(ul - l, 2.0, k);
    RMulMono(-2.0, ul - l, k);
  }

  /** Everything the exponential series asks of its argument. */
  lemma {:induction false} ReducedExponent(x: Parts, precision: nat, l: nat, fixed: nat, k: nat, rest: nat, scale: int, ln2: real)
    requires 0 < x.significand && TopExponent(x) < 15 && 32 <= precision && IsLn2(ln2)
    requires Serves(LN2, precision, l) && fixed == ToFixed(x, precision) && k <= 0x2_0000 && rest <= l
    requires if x.negative then rest == k * l - fixed && scale == -(k as int) else rest == fixed - k * l && scale == k
    ensures var unit := P2(precision);
      NearExponents(unit, rest, 1.0 + 2.0 * k as real, Reduced(false, x, scale, ln2), rest as real / unit as real)
  {
    hide P2, Pow, Val, ToFixed, IsLn2, Reduced, Times;
    assert Denotes(LN2, ln2);
    ReducedNear(x, precision, l, fixed, k, rest, scale, ln2);
    LargeUnit(precision);
    SmallReduced(P2(precision), rest, Reduced(false, x, scale, ln2), 1.0 + 2.0 * k as real);
  }

  lemma {:induction false} LargeUnit(precision: nat)
    requires 32 <= precision
    ensures 0x1_0000_0000 <= P2(precision)
  {
    hide P2, Pow;
    WordSizes();
    P2Mono(32, precision);
  }

  lemma {:induction false} SmallReduced(unit: nat, rest: nat, r: real, distance: real)
    requires 0x1_0000_0000 <= unit && 4 * rest <= 3 * unit + 4 && 0.0 <= distance <= 600_000.0
    requires Abs(Times(unit as real, r) - rest as real) <= distance
    ensures NearExponents(unit, rest, distance, r, rest as real / unit as real)
  {
    var u, y := unit as real, rest as real / unit as real;
    DivideBack(rest as real, u);
    TimesSwap(u, r);
    SmallBound(u, r, rest as real, distance, Times(u, r));
    RDistribute(r, y, u);
    AbsScale(r - y, u);
  }

  lemma {:induction false} TimesSwap(a: real, b: real)
    ensures Times(a, b) == b * a
  {
  }

  lemma {:induction false} SmallBound(u: real, r: real, rest: real, distance: real, ur: real)
    requires 4_294_967_296.0 <= u && 4.0 * rest <= 3.0 * u + 4.0 && 0.0 <= rest && 0.0 <= distance <= 600_000.0
    requires ur == r * u && Abs(ur - rest) <= distance
    ensures Abs(r) <= 0.8
  {
    ScaledOrder(ur, 0.8 * u, r, 0.8, u);
    ScaledOrder(-0.8 * u, ur, -0.8, r, u);
  }

  /** The quotient by ln 2 is small for every argument that is not settled beforehand. */
  lemma {:induction false} FewLn2(x: Parts, precision: nat, l: nat, fixed: nat)
    requires 0 < x.significand && TopExponent(x) < 15 && 32 <= precision && Serves(LN2, precision, l)
    requires fixed == ToFixed(x, precision)
    ensures 0 < l && 0 <= fixed / l < 0x2_0000
  {
    hide P2, Pow, ToFixed, IsNear, Val, Times;
    LargeUnit(precision);
    ToFixedNear(x, precision);
    BelowTop(x, precision);
    DivBelow(fixed, l, 0x2_0000);
    DivNonnegative(fixed, l);
  }

  lemma {:induction false} BelowTop(x: Parts, precision: nat)
    requires 0 < x.significand && TopExponent(x) < 15
    ensures Times(P2(precision) as real, Val(x.significand, x.exponent)) < 32_768.0 * P2(precision) as real
  {
    hide P2, Pow, Two, Val, Times;
    var m, e := x.significand, x.exponent;
    ValScaled(m, e, precision);
    BitLengthBounds(m);
    ValStrict(m, P2(BitLength(m)), e + precision);
    ValPower(BitLength(m), e + precision);
    TwoMono(e + precision + BitLength(m), precision + 15);
    TwoNat(precision + 15);
    P2Add(precision, 15);
    FifteenBits();
  }

  lemma {:induction false} FifteenBits()
    ensures P2(15) == 32_768
  {
    hide P2, Pow;
    SmallPower();
    P2Step(15);
  }

  /** The reduced argument is small, which leaves little choice of the scale. */
  ghost predicate Small(base2: bool, x: Parts, scale: int)
  {
    forall ln2: real :: IsLn2(ln2) ==> Abs(Reduced(base2, x, scale, ln2)) <= 0.8
  }

  /** What an approximation of e^x promises, for the scale it was reduced by. */
  ghost predicate ApproximatesExp(base2: bool, x: Parts, precision: nat, scale: int, a: Approximation)
  {
    && !a.negative && a.exponent == scale - precision && Small(base2, x, scale)
    && forall ln2: real, e: real :: IsLn2(ln2) && HasSum(EXP, 1.0, Reduced(base2, x, scale, ln2), e) ==>
         Abs(Times(P2(precision) as real, e) - a.center as real) <= a.error as real
  }

  /** The natural exponential: the multiples of ln 2 taken off become the scale, and each of them costs
      two units of the argument. */
  method ApproximateExp(x: Parts, precision: nat, ln2: CachedConstant, pi: CachedConstant)
    returns (a: Approximation, ghost scale: int)
    requires 0 < x.significand && TopExponent(x) < 15 && 32 <= precision && precision + STEP <= MAX_PRECISION
    requires ln2.Valid() && ln2.constant == LN2 && pi.Valid() && pi.constant == PI
    modifies ln2, pi
    ensures ln2.Valid() && pi.Valid() && ApproximatesExp(false, x, precision, scale, a)
    ensures a.error <= ErrorLimit(precision, scale)
  {
    hide P2, Pow, BitLength, ToFixed, Serves, SumsWithin, ApproximatesExp, IsNear;
    var l := ln2.At(precision, pi);
    var fixed := ToFixed(x, precision);
    FewLn2(x, precision, l, fixed);
    var k := fixed / l;
    var rest: int := fixed % l;
    ghost var exactly := fixed == k * l + rest;
    if x.negative {
      rest := l - rest;
      k := k + 1;
    }
    scale := if x.negative then -k else k;
    RestIs(fixed, l, k, rest, x.negative);
    SmallRest(precision, l, rest);
    var value, terms := ExpSeries(rest, precision);
    a := Approximation(false, value, 64 + 8 * terms + 8 * (k + 1), (if x.negative then -k else k) - precision);
    ExpApproximated(x, precision, l, fixed, k, rest, scale, value, terms, a);
  }

  lemma {:induction false} RestIs(fixed: nat, l: nat, k: nat, rest: int, negative: bool)
    requires 0 < l
    requires if negative then k == fixed / l + 1 && rest == l - fixed % l else k == fixed / l && rest == fixed % l
    ensures 0 <= rest <= l && rest == if negative then k * l - fixed else fixed - k * l
  {
    var q, r := fixed / l, fixed % l;
    assert fixed == q * l + r;
    assert (q + 1) * l == q * l + l;
  }

  lemma {:induction false} SmallRest(precision: nat, l: nat, rest: int)
    requires 0 <= rest <= l && 32 <= precision && Serves(LN2, precision, l)
    ensures rest <= P2(precision)
  {
    hide P2, Pow, IsNear;
    LargeUnit(precision);
  }

  lemma {:induction false} ExpApproximated(x: Parts, precision: nat, l: nat, fixed: nat, k: nat, rest: nat, scale: int,
      value: nat, terms: nat, a: Approximation)
    requires 0 < x.significand && TopExponent(x) < 15 && 32 <= precision
    requires Serves(LN2, precision, l) && fixed == ToFixed(x, precision) && k <= 0x2_0000 && rest <= l
    requires if x.negative then rest == k * l - fixed && scale == -(k as int) else rest == fixed - k * l && scale == k
    requires SumsWithin(EXP, P2(precision) as real, rest as real / P2(precision) as real, value as real, terms,
                        6.0 + 2.0 * terms as real)
    requires a == Approximation(false, value, 64 + 8 * terms + 8 * (k + 1), scale - precision)
    ensures ApproximatesExp(false, x, precision, scale, a)
  {
    hide P2, Pow, BitLength, ToFixed, Serves, SumsWithin, HasSum, IsLn2, Reduced, Times;
    var unit := P2(precision);
    forall ln2: real | IsLn2(ln2)
      ensures Abs(Reduced(false, x, scale, ln2)) <= 0.8
    {
      ReducedExponent(x, precision, l, fixed, k, rest, scale, ln2);
    }
    hide NearExponents;
    forall ln2: real, e: real | IsLn2(ln2) && HasSum(EXP, 1.0, Reduced(false, x, scale, ln2), e)
      ensures Abs(Times(unit as real, e) - a.center as real) <= a.error as real
    {
      ReducedExponent(x, precision, l, fixed, k, rest, scale, ln2);
      var distance := 1.0 + 2.0 * k as real;
      TrueExponent(unit, rest, distance, Reduced(false, x, scale, ln2), rest as real / unit as real, value as real, terms);
      SumScaled(EXP, unit as real, 1.0, Reduced(false, x, scale, ln2), e);
      TimesOne(unit as real);
      SumNear(EXP, unit as real, Reduced(false, x, scale, ln2), value as real, terms + 1,
              6.0 + 2.0 * terms as real + 3.6 * distance, Times(unit as real, e));
    }
  }

  /** The base-two exponential: whole and fraction are split exactly, so only the product with ln 2 adds
      an error to the argument. */
  method ApproximateExp2(x: Parts, precision: nat, ln2: CachedConstant, pi: CachedConstant)
    returns (a: Approximation, ghost integer: int)
    requires 0 < x.significand && 32 <= precision && precision + STEP <= MAX_PRECISION
    requires ln2.Valid() && ln2.constant == LN2 && pi.Valid() && pi.constant == PI
    modifies ln2, pi
    ensures ln2.Valid() && pi.Valid() && ApproximatesExp(true, x, precision, integer, a)
    ensures a.error <= ErrorLimit(precision, 0)
  {
    hide P2, Pow, ToFixed, Serves, SumsWithin, ApproximatesExp, IsNear;
    var fixed := ToFixed(x, precision);
    var unit := P2(precision);
    DivNonnegative(fixed, unit);
    var whole, fraction := fixed / unit, fixed % unit;
    var i: int := whole;
    if x.negative {
      i := -i;
      if fraction != 0 {
        fraction := unit - fraction;
        i := i - 1;
      }
    }
    integer := i;
    FractionNear(x, precision, fixed, fraction, i);
    var l := ln2.At(precision, pi);
    MulMono(0, fraction, l);
    DivNonnegative(fraction * l, unit);
    var power: nat := fraction * l / unit;
    PowerSmall(precision, fraction, l, power);
    var value, terms := ExpSeries(power, precision);
    a := Approximation(false, value, 64 + 8 * terms, i - precision);
    Exp2Approximated(x, precision, l, fraction, power, i, value, terms, a);
  }

  /** The fraction is within a unit of what is left after the whole part. */
  lemma {:induction false} FractionNear(x: Parts, precision: nat, fixed: nat, fraction: nat, integer: int)
    requires fixed == ToFixed(x, precision)
    requires var unit := P2(precision); var q: int, r := fixed / unit, fixed % unit;
      if x.negative then if r == 0 then integer == -q && fraction == 0 else integer == -q - 1 && fraction == unit - r
      else integer == q && fraction == r
    ensures fraction <= P2(precision)
    ensures Abs(Times(P2(precision) as real, SignedMagnitude(x) - integer as real) - fraction as real) <= 1.0
  {
    hide P2, Pow, Val, ToFixed;
    ToFixedNear(x, precision);
    var unit := P2(precision);
    var q: int, r := fixed / unit, fixed % unit;
    assert fixed == q * unit + r;
    RealMul(q, unit);
    WholePart(unit as real, Val(x.significand, x.exponent), q as real, integer as real,
              Times(unit as real, Val(x.significand, x.exponent)), fixed as real, r as real, (q * unit) as real);
  }

  lemma {:induction false} WholePart(u: real, v: real, q: real, i: real, uv: real, fixed: real, r: real, qu: real)
    requires uv == Times(u, v) && fixed <= uv < fixed + 1.0 && fixed == qu + r && qu == q * u
    ensures i == q ==> Abs(Times(u, v - i) - r) <= 1.0
    ensures i == -q ==> Abs(Times(u, -v - i) + r) <= 1.0
    ensures i == -q - 1.0 ==> Abs(Times(u, -v - i) - (u - r)) <= 1.0
  {
    assert u * (v - q) == uv - qu;
    assert u * (-v + q) == qu - uv;
    assert u * (-v + q + 1.0) == qu - uv + u;
  }

  lemma {:induction false} PowerSmall(precision: nat, fraction: nat, l: nat, power: nat)
    requires fraction <= P2(precision) && 32 <= precision && Serves(LN2, precision, l) && power == fraction * l / P2(precision)
    ensures 4 * power <= 3 * P2(precision) + 4 && power <= P2(precision)
  {
    hide P2, Pow, IsNear;
    LargeUnit(precision);
    MulMono(fraction, P2(precision), l);
    DivBelow(fraction * l, P2(precision), l + 1);
    assert (l + 1) * P2(precision) == l * P2(precision) + P2(precision);
  }

  /** The product with ln 2 is within four units of the exact one. */
  lemma {:induction false} ProductNear(unit: nat, fraction: nat, l: nat, power: nat, g: real, ln2: real)
    requires 0x1_0000_0000 <= unit && fraction <= unit && power == fraction * l / unit && 4 * l <= 3 * unit + 4
    requires Abs(Times(unit as real, g) - fraction as real) <= 1.0 && Abs(Times(unit as real, ln2) - l as real) < 2.0
    ensures Abs(Times(unit as real, Times(g, ln2)) - power as real) <= 4.0
  {
    MulMono(0, fraction, l);
    FloorReal(fraction * l, unit, power);
    RealMul(fraction, l);
    var u, f := unit as real, fraction as real;
    var w := Times(u, Times(g, ln2)) - power as real;
    ProductGap(u, f, l as real, g, ln2, Times(u, g), Times(u, ln2), power as real, f * l as real);
  }

  lemma {:induction false} ProductGap(u: real, f: real, l: real, g: real, ln2: real, ug: real, ul: real, p: real, fl: real)
    requires 4_294_967_296.0 <= u && 0.0 <= f <= u && 0.0 <= l && 4.0 * l <= 3.0 * u + 4.0 && fl == f * l
    requires ug == Times(u, g) && ul == Times(u, ln2) && Abs(ug - f) <= 1.0 && Abs(ul - l) < 2.0
    requires Times(p, u) <= fl < Times(p, u) + u
    ensures Abs(Times(u, Times(g, ln2)) - p) <= 4.0
  {
    var a, b := ug - f, ul - l;
    ExpandProduct(u, g, ln2, f, l, ug, ul, a, b, fl);
    ProductWithin(a, l, 1.0, l);
    ProductWithin(f, b, f, 2.0);
    ProductWithin(a, b, 1.0, 2.0);
    GapCloses(u, Times(u, Times(g, ln2)), p, fl, Times(a, l), Times(f, b), Times(a, b), l, f);
  }

  lemma {:induction false} ExpandProduct(u: real, g: real, ln2: real, f: real, l: real, ug: real, ul: real, a: real, b: real, fl: real)
    requires ug == Times(u, g) && ul == Times(u, ln2) && a == ug - f && b == ul - l && fl == f * l
    ensures Times(Times(u, Times(g, ln2)), u) == fl + Times(a, l) + Times(f, b) + Times(a, b)
  {
    RMulSwap(u, g, u, ln2);
    assert u * (g * ln2) * u == (u * g) * (u * ln2) by { assert (u * g) * (u * ln2) == (u * u) * (g * ln2); }
    assert (f + a) * (l + b) == f * l + a * l + f * b + a * b;
  }

  lemma {:induction false} GapCloses(u: real, x: real, p: real, fl: real, al: real, fb: real, ab: real, l: real, f: real)
    requires 4_294_967_296.0 <= u && 4.0 * l <= 3.0 * u + 4.0 && 0.0 <= f <= u
    requires Times(x, u) == fl + al + fb + ab && Abs(al) <= l && Abs(fb) <= 2.0 * f && Abs(ab) <= 2.0
    requires Times(p, u) <= fl < Times(p, u) + u
    ensures Abs(x - p) <= 4.0
  {
    hide Times;
    assert Abs(Times(x, u) - Times(p, u)) <= 4.0 * u;
    CloseUnits(x, p, u, 4.0);
  }

  lemma {:induction false} CloseUnits(x: real, p: real, u: real, e: real)
    requires 0.0 < u && Abs(Times(x, u) - Times(p, u)) <= e * u
    ensures Abs(x - p) <= e
  {
    RDistribute(x, p, u);
    AbsScale(x - p, u);
    ScaledOrder(Abs(x - p) * u, e * u, Abs(x - p), e, u);
  }

  lemma {:induction false} Exp2Approximated(x: Parts, precision: nat, l: nat, fraction: nat, power: nat, integer: int,
      value: nat, terms: nat, a: Approximation)
    requires 32 <= precision && Serves(LN2, precision, l) && fraction <= P2(precision)
    requires power == fraction * l / P2(precision) && 4 * power <= 3 * P2(precision) + 4
    requires Abs(Times(P2(precision) as real, SignedMagnitude(x) - integer as real) - fraction as real) <= 1.0
    requires SumsWithin(EXP, P2(precision) as real, power as real / P2(precision) as real, value as real, terms,
                        6.0 + 2.0 * terms as real)
    requires a == Approximation(false, value, 64 + 8 * terms, integer - precision)
    ensures ApproximatesExp(true, x, precision, integer, a)
  {
    hide P2, Pow, SumsWithin, HasSum, IsLn2, Times, SignedMagnitude, IsNear;
    var unit := P2(precision);
    LargeUnit(precision);
    forall ln2: real | IsLn2(ln2)
      ensures Abs(Reduced(true, x, integer, ln2)) <= 0.8
    {
      NearLn2(precision, l, ln2);
      ProductNear(unit, fraction, l, power, SignedMagnitude(x) - integer as real, ln2);
      SmallReduced(unit, power, Reduced(true, x, integer, ln2), 4.0);
    }
    hide NearExponents;
    forall ln2: real, e: real | IsLn2(ln2) && HasSum(EXP, 1.0, Reduced(true, x, integer, ln2), e)
      ensures Abs(Times(unit as real, e) - a.center as real) <= a.error as real
    {
      var r := Reduced(true, x, integer, ln2);
      NearLn2(precision, l, ln2);
      ProductNear(unit, fraction, l, power, SignedMagnitude(x) - integer as real, ln2);
      SmallReduced(unit, power, r, 4.0);
      TrueExponent(unit, power, 4.0, r, power as real / unit as real, value as real, terms);
      SumScaled(EXP, unit as real, 1.0, r, e);
      TimesOne(unit as real);
      SumNear(EXP, unit as real, r, value as real, terms + 1, 6.0 + 2.0 * terms as real + 3.6 * 4.0, Times(unit as real, e));
    }
  }

  lemma {:induction false} NearLn2(precision: nat, l: nat, ln2: real)
    requires Serves(LN2, precision, l) && IsLn2(ln2)
    ensures Abs(Times(P2(precision) as real, ln2) - l as real) < 2.0 && 4 * l <= 3 * P2(precision) + 4
  {
    hide P2, Pow, IsLn2, Times;
    assert Denotes(LN2, ln2);
  }

  /** The result is the correct rounding of `2^scale * e^r`, for the small reduced argument. */
  ghost predicate RoundsExp(base2: bool, f: Format, x: Parts, scale: int, bits: nat)
  {
    && Small(base2, x, scale)
    && forall ln2: real, e: real :: IsLn2(ln2) && HasSum(EXP, 1.0, Reduced(base2, x, scale, ln2), e) ==>
         CorrectlyRounded(f, false, Times(e, Two(scale)), bits)
  }

  lemma {:induction false} ExpDecided(base2: bool, f: Format, x: Parts, precision: nat, scale: int, a: Approximation, bits: nat)
    requires ApproximatesExp(base2, x, precision, scale, a) && DecideOn(a, f) == Some(bits)
    ensures RoundsExp(base2, f, x, scale, bits)
  {
    hide P2, Pow, HasSum, IsLn2, Reduced, Times, CorrectlyRounded, DecideOn, Two;
    forall ln2: real, e: real | IsLn2(ln2) && HasSum(EXP, 1.0, Reduced(base2, x, scale, ln2), e)
      ensures CorrectlyRounded(f, false, Times(e, Two(scale)), bits)
    {
      Decided(a, f, bits, Times(P2(precision) as real, e));
      UnitsCancel(e, precision, scale);
    }
  }

  lemma {:induction false} UnitsCancel(e: real, precision: nat, scale: int)
    ensures Times(Times(P2(precision) as real, e), Two(scale - precision)) == Times(e, Two(scale))
  {
    hide P2, Pow, Two;
    TwoNat(precision);
    TwoAdd(precision, scale - precision);
    CancelUnits(e, P2(precision) as real, Two(scale - precision), Two(scale));
  }

  lemma {:induction false} CancelUnits(e: real, u: real, v: real, w: real)
    requires w == u * v
    ensures Times(Times(u, e), v) == Times(e, w)
  {
    RMulAssoc(e, u, v);
    assert u * e == e * u;
  }

  // ----- Sines, cosines and tangents ----------------------------------------------------------------

  datatype TrigFunction = SIN | COS | TAN

  /** The angle that is left of the magnitude after a number of quarter turns. */
  function AngleLeft(x: Parts, turns: nat, circle: real): real
  {
    Val(x.significand, x.exponent) - Times(turns as real, circle / 2.0)
  }

  /** The sine of an angle, as the number its series approaches. */
  ghost predicate IsSine(angle: real, s: real)
  {
    HasSum(SINE, angle, Times(angle, angle), s)
  }

  ghost predicate IsCosine(angle: real, c: real)
  {
    HasSum(COSINE, 1.0, Times(angle, angle), c)
  }

  /** What is left after the turns is within a quarter turn, to a few units on either side. */
  ghost predicate QuarterLeft(x: Parts, precision: nat, turns: nat)
  {
    var unit := P2(precision) as real;
    forall circle: real :: IsPi(circle) ==>
      -8.0 <= Times(unit, AngleLeft(x, turns, circle)) <= Times(unit, circle) / 2.0 + 10.0
  }

  /** What the two series promise for the angle that is left, negative values counted as zero. */
  ghost predicate SineCosineNear(x: Parts, precision: nat, turns: nat, sine: nat, cosine: nat, error: nat)
  {
    && QuarterLeft(x, precision, turns)
    && forall circle: real, s: real, c: real ::
      IsPi(circle) && IsSine(AngleLeft(x, turns, circle), s) && IsCosine(AngleLeft(x, turns, circle), c) ==>
        && Abs(sine as real - AtLeastZero(Times(P2(precision) as real, s))) <= error as real
        && Abs(cosine as real - AtLeastZero(Times(P2(precision) as real, c))) <= error as real
  }

  lemma {:induction false} AngleInUnits(x: Parts, unit: real, turns: nat, circle: real, exact: real)
    requires 0.0 < unit && exact == Times(unit, AngleLeft(x, turns, circle))
    ensures exact == Times(unit, Val(x.significand, x.exponent)) - Times(turns as real, Times(unit, circle) / 2.0)
    ensures exact / unit == AngleLeft(x, turns, circle)
  {
    hide Val;
    TurnsInUnits(Val(x.significand, x.exponent), unit, turns as real, circle);
    UnitsBack(unit, AngleLeft(x, turns, circle));
  }

  lemma {:induction false} TurnsInUnits(v: real, u: real, t: real, circle: real)
    ensures Times(u, v - Times(t, circle / 2.0)) == Times(u, v) - Times(t, Times(u, circle) / 2.0)
  {
    var h := circle / 2.0;
    RDistribute(v, t * h, u);
    RMulAssoc(t, h, u);
    assert u * circle / 2.0 == h * u;
  }

  lemma {:induction false} UnitsBack(u: real, a: real)
    requires 0.0 < u
    ensures Times(u, a) / u == a
  {
    var q := u * a / u;
    assert q * u == u * a;
    ScaledOrder(q * u, a * u, q, a, u);
    ScaledOrder(a * u, q * u, a, q, u);
  }

  lemma {:induction false} TrigNear(x: Parts, precision: nat, r: ReducedAngle, turns: nat, sine: nat, cosine: nat, error: nat)
    requires 10 <= precision && 72 <= error && error % 8 == 0 && 5 * r.remainder <= 8 * P2(precision)
    requires forall circle: real :: IsPi(circle) ==> Reduces(x, precision, r, turns, circle)
    requires var unit := P2(precision) as real; var a := r.remainder as real / unit; var terms := (error - 64) / 8;
      && SettledWithin(SINE, r.remainder as real, Times(a, a), sine as real, terms, 6.0 + 2.0 * terms as real)
      && SettledWithin(COSINE, unit, Times(a, a), cosine as real, terms, 6.0 + 2.0 * terms as real)
    ensures SineCosineNear(x, precision, turns, sine, cosine, error)
  {
    hide P2, Pow, SettledWithin, HasSum, IsPi, AngleLeft, Times, AtLeastZero, NearAngles;
    var unit := P2(precision);
    forall circle: real | IsPi(circle)
      ensures -8.0 <= Times(unit as real, AngleLeft(x, turns, circle)) <= Times(unit as real, circle) / 2.0 + 10.0
    {
      AngleInUnits(x, unit as real, turns, circle, Times(unit as real, AngleLeft(x, turns, circle)));
    }
    forall circle: real, s: real, c: real |
      IsPi(circle) && IsSine(AngleLeft(x, turns, circle), s) && IsCosine(AngleLeft(x, turns, circle), c)
      ensures Abs(sine as real - AtLeastZero(Times(unit as real, s))) <= error as real
      ensures Abs(cosine as real - AtLeastZero(Times(unit as real, c))) <= error as real
    {
      var angle := AngleLeft(x, turns, circle);
      var y := Times(r.remainder as real / unit as real, r.remainder as real / unit as real);
      var exact := NearTrueAngle(x, precision, r, turns, circle, y);
      var terms := (error - 64) / 8;
      TrueAngle(SINE, unit, r.remainder, exact, Times(angle, angle), y, sine as real, terms);
      TrueAngle(COSINE, unit, r.remainder, exact, Times(angle, angle), y, cosine as real, terms);
      SumScaled(SINE, unit as real, angle, Times(angle, angle), s);
      SumScaled(COSINE, unit as real, 1.0, Times(angle, angle), c);
      TimesOne(unit as real);
      SettledNear(SINE, exact, Times(angle, angle), sine as real, terms, 64.0 + 8.0 * terms as real, Times(unit as real, s));
      SettledNear(COSINE, unit as real, Times(angle, angle), cosine as real, terms, 64.0 + 8.0 * terms as real,
                  Times(unit as real, c));
    }
  }

  lemma {:induction false} NearTrueAngle(x: Parts, precision: nat, r: ReducedAngle, turns: nat, circle: real, y: real)
    returns (exact: real)
    requires 10 <= precision && 5 * r.remainder <= 8 * P2(precision) && Reduces(x, precision, r, turns, circle)
    requires y == Times(r.remainder as real / P2(precision) as real, r.remainder as real / P2(precision) as real)
    ensures exact == Times(P2(precision) as real, AngleLeft(x, turns, circle))
    ensures NearAngles(P2(precision), r.remainder, exact,
                       Times(AngleLeft(x, turns, circle), AngleLeft(x, turns, circle)), y)
  {
    hide P2, Pow, Val, Times, AngleLeft;
    exact := Times(P2(precision) as real, AngleLeft(x, turns, circle));
    AngleInUnits(x, P2(precision) as real, turns, circle, exact);
    Thousand(precision);
  }

  lemma {:induction false} Thousand(precision: nat)
    requires 10 <= precision
    ensures 1024 <= P2(precision)
  {
    hide P2, Pow;
    Sixteen();
    P2Step(8);
    P2Step(9);
    P2Mono(10, precision);
  }

  /** What the turns make of sine and cosine, as magnitudes: they change places at every turn. */
  ghost predicate TurnedNear(x: Parts, precision: nat, turns: nat, sine: Bounded, cosine: Bounded)
  {
    && QuarterLeft(x, precision, turns)
    && forall circle: real, s: real, c: real ::
         IsPi(circle) && IsSine(AngleLeft(x, turns, circle), s) && IsCosine(AngleLeft(x, turns, circle), c) ==>
           && Holds(sine, AtLeastZero(Times(P2(precision) as real, if turns % 2 == 1 then c else s)))
           && Holds(cosine, AtLeastZero(Times(P2(precision) as real, if turns % 2 == 1 then s else c)))
  }

  lemma {:induction false} TurnedFrom(x: Parts, precision: nat, turns: nat, sine: nat, cosine: nat, error: nat)
    requires SineCosineNear(x, precision, turns, sine, cosine, error)
    ensures turns % 2 == 1 ==> TurnedNear(x, precision, turns, Bounded(cosine, error), Bounded(sine, error))
    ensures turns % 2 == 0 ==> TurnedNear(x, precision, turns, Bounded(sine, error), Bounded(cosine, error))
  {
    hide P2, Pow, IsSine, IsCosine, IsPi, AngleLeft, AtLeastZero, Times, QuarterLeft;
  }

  /** A quotient of bounded numbers, with no more error than theirs. */
  ghost predicate QuotientHolds(n: Bounded, d: Bounded, precision: nat, r: Bounded)
  {
    && TightQuotient(n, d, P2(precision), r.error)
    && forall x: real, y: real, q: real :: Holds(n, x) && Holds(d, y) && Times(q, y) == x ==>
         Holds(r, Times(P2(precision) as real, q))
  }

  lemma {:induction false} QuotientGiven(n: Bounded, d: Bounded, precision: nat)
    requires 2 * d.error < d.value
    ensures DivideBounded(n, d, precision).Some? && QuotientHolds(n, d, precision, DivideBounded(n, d, precision).value)
  {
    hide P2, Pow, DivideBounded, TightQuotient, Holds;
    DivideBoundedGiven(n, d, precision);
    var r := DivideBounded(n, d, precision).value;
    forall x: real, y: real, q: real | Holds(n, x) && Holds(d, y) && Times(q, y) == x
      ensures Holds(r, Times(P2(precision) as real, q))
    {
      DivideBoundedSound(n, d, precision, x, y, q);
    }
  }

  /** The sign of each function after the turns, over the turned sine and cosine. */
  ghost predicate ApproximatesTrig(function_: TrigFunction, negative: bool, turns: nat, sine: Bounded, cosine: Bounded,
      precision: nat, a: Approximation)
  {
    && a.exponent == -(precision as int)
    && match function_
       case SIN => a.negative == ((turns % 4 >= 2) != negative) && Bounded(a.center, a.error) == sine
       case COS => a.negative == (1 <= turns % 4 <= 2) && Bounded(a.center, a.error) == cosine
       case TAN =>
         && a.negative == ((turns % 2 == 1) != negative)
         && QuotientHolds(sine, cosine, precision, Bounded(a.center, a.error))
  }

  /** Only a tangent may have no answer, and only while its denominator cannot be told from zero. */
  method ApproximateTrig(function_: TrigFunction, x: Parts, precision: nat, pi: CachedConstant, twoOverPi: CachedConstant)
    returns (a: Option<Approximation>, ghost turns: nat, ghost sine: Bounded, ghost cosine: Bounded)
    requires 0 < x.significand && 10 <= precision && precision + 4 * STEP <= MAX_PRECISION
    requires TopExponent(x) + precision + 9 + 4 * STEP <= MAX_PRECISION
    requires pi.Valid() && pi.constant == PI && twoOverPi.Valid() && twoOverPi.constant == TWO_OVER_PI
    modifies pi, twoOverPi
    ensures pi.Valid() && twoOverPi.Valid() && TurnedNear(x, precision, turns, sine, cosine)
    ensures sine.error <= ErrorLimit(precision, 0) && cosine.error <= ErrorLimit(precision, 0)
    ensures a.None? <==> function_ == TAN && cosine.value <= 2 * cosine.error
    ensures a.Some? ==> ApproximatesTrig(function_, x.negative, turns, sine, cosine, precision, a.value)
  {
    hide P2, Pow, BitLength, Serves, Reduces, IsPi, SettledWithin, SineCosineNear, TurnedNear, QuotientHolds, DivideBounded, Times;
    var reduced, t := ReduceAngle(x, precision, pi, twoOverPi);
    turns := t;
    var s, c, error := SineCosineOf(reduced.remainder, precision);
    TrigNear(x, precision, reduced, turns, s, c, error);
    TurnedFrom(x, precision, turns, s, c, error);
    var quadrant := reduced.quadrant;
    var swapped := quadrant % 2 == 1;
    sine, cosine := Bounded(if swapped then c else s, error), Bounded(if swapped then s else c, error);
    var exponent := -(precision as int);
    if function_ == SIN {
      return Some(Approximation((quadrant >= 2) != x.negative, if swapped then c else s, error, exponent)), turns, sine, cosine;
    }
    if function_ == COS {
      return Some(Approximation(quadrant == 1 || quadrant == 2, if swapped then s else c, error, exponent)), turns, sine, cosine;
    }
    DivideBoundedGiven(sine, cosine, precision);
    var tangent := if swapped then DivideBounded(Bounded(c, error), Bounded(s, error), precision)
                   else DivideBounded(Bounded(s, error), Bounded(c, error), precision);
    if tangent.None? { return None, turns, sine, cosine; }
    QuotientGiven(sine, cosine, precision);
    a := Some(Approximation(swapped != x.negative, tangent.value.value, tangent.value.error, exponent));
  }

  /** The result is the correct rounding of the function after the given quarter turns: sine and cosine
      change places at each turn and their signs every other one. What is rounded is positive, so the
      turns settle the sign of the result. */
  ghost predicate RoundsTrig(function_: TrigFunction, f: Format, x: Parts, turns: nat, bits: nat)
  {
    forall circle: real, s: real, c: real ::
      IsPi(circle) && IsSine(AngleLeft(x, turns, circle), s) && IsCosine(AngleLeft(x, turns, circle), c) ==>
        RoundsTurned(function_, f, x.negative, turns, s, c, bits)
  }

  ghost predicate RoundsTurned(function_: TrigFunction, f: Format, negative: bool, turns: nat, s: real, c: real, bits: nat)
  {
    var sine, cosine := if turns % 2 == 1 then c else s, if turns % 2 == 1 then s else c;
    match function_
    case SIN => sine > 0.0 && CorrectlyRounded(f, (turns % 4 >= 2) != negative, sine, bits)
    case COS => cosine > 0.0 && CorrectlyRounded(f, 1 <= turns % 4 <= 2, cosine, bits)
    case TAN =>
      && sine > 0.0 && cosine > 0.0
      && forall q: real :: Times(q, cosine) == sine ==> CorrectlyRounded(f, (turns % 2 == 1) != negative, q, bits)
  }

  /** A decided value in units is the value itself: clamping at zero has not touched it. */
  lemma {:induction false} DecidedUnits(a: Approximation, f: Format, bits: nat, precision: nat, v: real)
    requires DecideOn(a, f) == Some(bits) && a.exponent == -(precision as int)
    requires Abs(a.center as real - AtLeastZero(Times(P2(precision) as real, v))) <= a.error as real
    ensures 0.0 < v && CorrectlyRounded(f, a.negative, v, bits)
  {
    hide P2, Pow, Two, CorrectlyRounded, DecideOn, Times;
    Decided(a, f, bits, AtLeastZero(Times(P2(precision) as real, v)));
    PositiveFactor(P2(precision) as real, v);
    UnitsCancel(v, precision, 0);
    ZeroScale(v);
  }

  lemma {:induction false} PositiveFactor(u: real, p: real)
    requires 0.0 < Times(u, p) && 0.0 < u
    ensures 0.0 < p
  {
    if p <= 0.0 { RMulMono(p, 0.0, u); }
  }

  lemma {:induction false} ZeroScale(v: real)
    ensures Times(v, Two(0)) == v
  {
    hide RPow;
    RPowZero(2);
  }

  lemma {:induction false} TangentDecided(n: Bounded, d: Bounded, precision: nat, a: Approximation, f: Format, bits: nat,
      s: real, c: real)
    requires DecideOn(a, f) == Some(bits) && a.exponent == -(precision as int)
    requires 2 * d.error < d.value && QuotientHolds(n, d, precision, Bounded(a.center, a.error))
    requires Holds(n, AtLeastZero(Times(P2(precision) as real, s)))
    requires Holds(d, AtLeastZero(Times(P2(precision) as real, c)))
    ensures s > 0.0 && c > 0.0
    ensures forall q: real :: Times(q, c) == s ==> CorrectlyRounded(f, a.negative, q, bits)
  {
    hide P2, Pow, Two, CorrectlyRounded, DecideOn, Times, AtLeastZero, TightQuotient;
    var u := P2(precision) as real;
    var x, y := AtLeastZero(Times(u, s)), AtLeastZero(Times(u, c));
    var q' := Quotient(x, y);
    assert Holds(Bounded(a.center, a.error), Times(u, q'));
    Decided(a, f, bits, Times(u, q'));
    SameQuotient(u, q', x, y, s, c);
    UnitsCancel(q', precision, 0);
    ZeroScale(q');
    forall q: real | Times(q, c) == s
      ensures CorrectlyRounded(f, a.negative, q, bits)
    {
      OneQuotient(q, q', c, s);
    }
  }

  lemma {:induction false} Quotient(x: real, y: real) returns (q: real)
    requires 0.0 < y
    ensures Times(q, y) == x && q * y == x
  {
    q := x / y;
  }

  /** A positive quotient of clamped values is the quotient of the values. */
  lemma {:induction false} SameQuotient(u: real, q: real, x: real, y: real, s: real, c: real)
    requires 0.0 < u && x == AtLeastZero(Times(u, s)) && y == AtLeastZero(Times(u, c)) && 0.0 < y && q * y == x
    requires 0.0 < Times(u, q)
    ensures 0.0 < s && 0.0 < c && Times(q, c) == s
  {
    assert 0.0 < q by { if q <= 0.0 { RMulMono(q, 0.0, u); } }
    assert 0.0 < x by { RMulStrict(0.0, q, y); }
    PositiveFactor(u, s);
    PositiveFactor(u, c);
    assert u * s == q * (u * c);
    RMulAssoc(q, c, u);
    ScaledOrder(s * u, (q * c) * u, s, q * c, u);
    ScaledOrder((q * c) * u, s * u, q * c, s, u);
  }

  lemma {:induction false} OneQuotient(q: real, q': real, c: real, s: real)
    requires 0.0 < c && Times(q, c) == s && Times(q', c) == s
    ensures q == q'
  {
    ScaledOrder(s, s, q, q', c);
    ScaledOrder(s, s, q', q, c);
  }

  lemma {:induction false} TrigDecided(function_: TrigFunction, f: Format, x: Parts, precision: nat, turns: nat,
      sine: Bounded, cosine: Bounded, a: Approximation, bits: nat)
    requires TurnedNear(x, precision, turns, sine, cosine) && (function_ == TAN ==> 2 * cosine.error < cosine.value)
    requires ApproximatesTrig(function_, x.negative, turns, sine, cosine, precision, a) && DecideOn(a, f) == Some(bits)
    ensures RoundsTrig(function_, f, x, turns, bits)
  {
    hide P2, Pow, Two, CorrectlyRounded, DecideOn, Times, IsSine, IsCosine, IsPi, AngleLeft, AtLeastZero, Holds,
         QuotientHolds, ApproximatesTrig, QuarterLeft, RoundsTurned;
    forall circle: real, s: real, c: real |
      IsPi(circle) && IsSine(AngleLeft(x, turns, circle), s) && IsCosine(AngleLeft(x, turns, circle), c)
      ensures RoundsTurned(function_, f, x.negative, turns, s, c, bits)
    {
      TurnedDecided(function_, f, x.negative, precision, turns, sine, cosine, a, bits, s, c);
    }
  }

  lemma {:induction false} DecidedBound(b: Bounded, a: Approximation, f: Format, bits: nat, precision: nat, v: real)
    requires DecideOn(a, f) == Some(bits) && a.exponent == -(precision as int) && Bounded(a.center, a.error) == b
    requires Holds(b, AtLeastZero(Times(P2(precision) as real, v)))
    ensures 0.0 < v && CorrectlyRounded(f, a.negative, v, bits)
  {
    hide P2, Pow, Two, CorrectlyRounded, DecideOn, Times, AtLeastZero;
    DecidedUnits(a, f, bits, precision, v);
  }

  lemma {:induction false} TurnedDecided(function_: TrigFunction, f: Format, negative: bool, precision: nat, turns: nat,
      sine: Bounded, cosine: Bounded, a: Approximation, bits: nat, s: real, c: real)
    requires Holds(sine, AtLeastZero(Times(P2(precision) as real, if turns % 2 == 1 then c else s)))
    requires Holds(cosine, AtLeastZero(Times(P2(precision) as real, if turns % 2 == 1 then s else c)))
    requires function_ == TAN ==> 2 * cosine.error < cosine.value
    requires ApproximatesTrig(function_, negative, turns, sine, cosine, precision, a) && DecideOn(a, f) == Some(bits)
    ensures RoundsTurned(function_, f, negative, turns, s, c, bits)
  {
    hide P2, Pow, Two, CorrectlyRounded, DecideOn, Times, AtLeastZero, QuotientHolds, Holds;
    var v, w := if turns % 2 == 1 then c else s, if turns % 2 == 1 then s else c;
    match function_ {
      case SIN => DecidedBound(sine, a, f, bits, precision, v);
      case COS => DecidedBound(cosine, a, f, bits, precision, w);
      case TAN => TangentDecided(sine, cosine, precision, a, f, bits, v, w);
    }
  }

  // ----- Raising the precision until the result is decided --------------------------------------------

  /** At a precision, sine and cosine to within the error allowed do not decide the result; or they leave
      a tangent's denominator too near zero. */
  ghost predicate UndecidedTrig(function_: TrigFunction, f: Format, x: Parts, precision: nat)
  {
    exists turns: nat, sine: Bounded, cosine: Bounded :: UndecidedFrom(function_, f, x, precision, turns, sine, cosine)
  }

  ghost predicate UndecidedFrom(function_: TrigFunction, f: Format, x: Parts, precision: nat, turns: nat, sine: Bounded,
      cosine: Bounded)
  {
    && TurnedNear(x, precision, turns, sine, cosine)
    && sine.error <= ErrorLimit(precision, 0) && cosine.error <= ErrorLimit(precision, 0)
    && (|| (function_ == TAN && cosine.value <= 2 * cosine.error)
        || exists a: Approximation ::
             ApproximatesTrig(function_, x.negative, turns, sine, cosine, precision, a) && DecideOn(a, f) == None)
  }

  /** The loop over working precisions, for the three functions of an angle. It gives up only if none of
      them decides. */
  method EvaluateTrig(function_: TrigFunction, x: Parts, f: Format, limit: nat, pi: CachedConstant, twoOverPi: CachedConstant)
    returns (r: Option<nat>)
    requires 0 < x.significand && limit + 4 * STEP <= MAX_PRECISION
    requires TopExponent(x) + limit + 9 + 4 * STEP <= MAX_PRECISION
    requires pi.Valid() && pi.constant == PI && twoOverPi.Valid() && twoOverPi.constant == TWO_OVER_PI
    modifies pi, twoOverPi
    ensures pi.Valid() && twoOverPi.Valid()
    ensures r.Some? ==> exists turns: nat :: RoundsTrig(function_, f, x, turns, r.value)
    ensures r.None? ==> forall k: nat :: WorkingPrecision(f, k) <= limit ==> UndecidedTrig(function_, f, x, WorkingPrecision(f, k))
  {
    hide P2, Pow, BitLength, Serves, TurnedNear, ApproximatesTrig, RoundsTrig, DecideOn, WorkingPrecision, ErrorLimit;
    var precision := Precision(f) + 64;
    FirstPrecision(f);
    ghost var attempt: nat := 0;
    while precision <= limit
      invariant pi.Valid() && twoOverPi.Valid() && precision == WorkingPrecision(f, attempt)
      invariant forall k: nat :: k < attempt ==> UndecidedTrig(function_, f, x, WorkingPrecision(f, k))
      decreases limit - precision
    {
      var a, turns, sine, cosine := ApproximateTrig(function_, x, precision, pi, twoOverPi);
      if a.Some? {
        var value := DecideOn(a.value, f);
        if value.Some? {
          TrigDecided(function_, f, x, precision, turns, sine, cosine, a.value, value.value);
          return value;
        }
      }
      assert UndecidedFrom(function_, f, x, precision, turns, sine, cosine);
      NextPrecision(f, attempt);
      precision, attempt := precision * 2, attempt + 1;
    }
    forall k: nat | WorkingPrecision(f, k) <= limit
      ensures k < attempt
    {
      if attempt <= k { LaterPrecisions(f, attempt, k); }
    }
    return None;
  }

  /** At a precision, some approximation to within the error allowed does not decide the result. */
  ghost predicate UndecidedExp(base2: bool, f: Format, x: Parts, precision: nat)
  {
    exists scale: int, a: Approximation ::
      && ApproximatesExp(base2, x, precision, scale, a)
      && a.error <= ErrorLimit(precision, if base2 then 0 else scale)
      && DecideOn(a, f) == None
  }

  /** The same loop for the exponentials. */
  method EvaluateExp(base2: bool, x: Parts, f: Format, limit: nat, ln2: CachedConstant, pi: CachedConstant) returns (r: Option<nat>)
    requires 0 < x.significand && TopExponent(x) < 15 && limit + STEP <= MAX_PRECISION
    requires ln2.Valid() && ln2.constant == LN2 && pi.Valid() && pi.constant == PI
    modifies ln2, pi
    ensures ln2.Valid() && pi.Valid()
    ensures r.Some? ==> exists scale: int :: RoundsExp(base2, f, x, scale, r.value)
    ensures r.None? ==> forall k: nat :: WorkingPrecision(f, k) <= limit ==> UndecidedExp(base2, f, x, WorkingPrecision(f, k))
  {
    hide P2, Pow, BitLength, Serves, ApproximatesExp, RoundsExp, DecideOn, WorkingPrecision;
    var precision := Precision(f) + 64;
    FirstPrecision(f);
    ghost var attempt: nat := 0;
    while precision <= limit
      invariant ln2.Valid() && pi.Valid() && precision == WorkingPrecision(f, attempt)
      invariant forall k: nat :: k < attempt ==> UndecidedExp(base2, f, x, WorkingPrecision(f, k))
      decreases limit - precision
    {
      var a;
      ghost var scale;
      if base2 { a, scale := ApproximateExp2(x, precision, ln2, pi); } else { a, scale := ApproximateExp(x, precision, ln2, pi); }
      var value := DecideOn(a, f);
      if value.Some? {
        ExpDecided(base2, f, x, precision, scale, a, value.value);
        return value;
      }
      NextPrecision(f, attempt);
      precision, attempt := precision * 2, attempt + 1;
    }
    forall k: nat | WorkingPrecision(f, k) <= limit
      ensures k < attempt
    {
      if attempt <= k { LaterPrecisions(f, attempt, k); }
    }
    return None;
  }
}
