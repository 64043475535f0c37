/** Division with error bounds on both operands, and the reduction of angles of any magnitude. */
module Angles {
  import opened Powers
  import opened Digits
  import opened Formats
  import opened Constants

  // ----- Interval division --------------------------------------------------------------------------

  /** A number off by at most `error` units. */
  datatype Bounded = Bounded(value: nat, error: nat)

  ghost predicate Holds(b: Bounded, x: real)
  {
    Abs(x - b.value as real) <= b.error as real
  }

  /** Divides the values and allows for the worst operands the bounds admit; gives up when zero is, or
      could nearly be, one of the denominators. */
  function DivideBounded(numerator: Bounded, denominator: Bounded, precision: nat): Option<Bounded>
  {
    hide P2, Pow;
    if denominator.value <= denominator.error + denominator.error then None
    else
      var least := denominator.value - denominator.error;
      var unit := P2(precision);
      Nonnegatives(numerator, denominator, unit);
      var greatestQuotient := (numerator.value + numerator.error) * unit / least + 1;
      var slack := numerator.error * unit + greatestQuotient * denominator.error;
      Some(Bounded(numerator.value * unit / denominator.value, slack / least + 3))
  }

  lemma {:induction false} Nonnegatives(n: Bounded, d: Bounded, unit: nat)
    requires d.error + d.error < d.value
    ensures var least := d.value - d.error; var g := (n.value + n.error) * unit / least + 1;
      0 <= n.value * unit / d.value && 0 < g && 0 <= n.error * unit + g * d.error
      && 0 <= (n.error * unit + g * d.error) / least
  {
    var least := d.value - d.error;
    MulMono(0, n.value, unit);
    MulMono(0, n.error, unit);
    MulMono(0, n.value + n.error, unit);
    DivNonnegative(n.value * unit, d.value);
    DivNonnegative((n.value + n.error) * unit, least);
    var g := (n.value + n.error) * unit / least + 1;
    MulMono(0, g, d.error);
    DivNonnegative(n.error * unit + g * d.error, least);
  }

  /** Whatever the operands are within their bounds, their quotient is within the bounds of the result. */
  lemma {:induction false} DivideBoundedSound(n: Bounded, d: Bounded, precision: nat, x: real, y: real, q: real)
    requires Holds(n, x) && Holds(d, y) && q * y == x && DivideBounded(n, d, precision).Some?
    ensures 0.0 < y && Holds(DivideBounded(n, d, precision).value, Times(P2(precision) as real, q))
  {
    hide P2, Pow;
    var unit, least := P2(precision), d.value - d.error;
    Nonnegatives(n, d, unit);
    var g := (n.value + n.error) * unit / least + 1;
    var slack := n.error * unit + g * d.error;
    var value, f := n.value * unit / d.value, slack / least;
    var t := Times(unit as real, q);
    TargetProduct(unit as real, q, x, y, t);
    TargetBelow(n, d, unit, x, y, t, g);
    GapBound(n, d, unit, x, y, t, g, value);
    CloseDivision(t, value, f, d, slack, least);
  }

  lemma {:induction false} TargetProduct(u: real, q: real, x: real, y: real, t: real)
    requires t == Times(u, q) && q * y == x
    ensures Times(t, y) == Times(u, x)
  {
    RMulAssoc(u, q, y);
  }

  lemma {:induction false} FloorReal(p: nat, d: nat, f: int)
    requires 0 < d && f == p / d
    ensures Times(f as real, d as real) <= p as real < Times(f as real, d as real) + d as real
  {
    RealMul(f, d);
    assert f * d <= p < f * d + d;
  }

  /** Nor is the error much more than that of the operands, for a denominator of a quarter or more. */
  lemma {:induction false} DivideBoundedTight(n: Bounded, d: Bounded, precision: nat, size: nat)
    requires 2 * d.error < d.value && P2(precision) <= 4 * (d.value - d.error) && n.value + n.error <= size * P2(precision)
    ensures DivideBounded(n, d, precision).Some?
    ensures DivideBounded(n, d, precision).value.error <= 4 * n.error + (16 * size + 1) * d.error + 3
  {
    hide *;
    var unit, least, top := P2(precision), d.value - d.error, n.value + n.error;
    var g := GreatestAtMost(top, unit, least);
    QuarterProducts(unit, least, size, n.error);
    SlackAtMost(n.error, unit, g, d.error, least, size, top);
    ErrorIs(n, d, precision, unit, g);
  }

  /** The error is no more than the operands' errors account for, in a form without divisions: with the
      least denominator for `y`, the quotient's own error is at most `en u / y + (top u / y + 1) ed / y`
      and three units for truncation. */
  predicate TightQuotient(n: Bounded, d: Bounded, unit: nat, error: nat)
  {
    var least := d.value - d.error;
    (error - 3) * least * least <= n.error * unit * least + ((n.value + n.error) * unit + least) * d.error
  }

  /** A quotient is given exactly if the denominator is more than twice its error. */
  lemma {:induction false} DivideBoundedGiven(n: Bounded, d: Bounded, precision: nat)
    ensures DivideBounded(n, d, precision).Some? <==> 2 * d.error < d.value
    ensures DivideBounded(n, d, precision).Some? ==>
              TightQuotient(n, d, P2(precision), DivideBounded(n, d, precision).value.error)
  {
    if 2 * d.error < d.value {
      hide P2, Pow, DivideBounded, TightQuotient;
      var unit, least := P2(precision), d.value - d.error;
      var eu := NaturalProduct(n.error, unit);
      var tu := NaturalProduct(n.value + n.error, unit);
      DivNonnegative(tu, least);
      var ge := NaturalProduct(tu / least + 1, d.error);
      ErrorIs(n, d, precision, unit, tu / least + 1);
      SlackDivided(eu, tu / least + 1, d.error, least, tu, ge);
      TightIs(n, d, unit, (eu + ge) / least, eu, tu);
    } else {
      hide P2, Pow;
    }
  }

  lemma {:induction false} NaturalProduct(a: nat, b: nat) returns (p: nat)
    ensures p == a * b
  {
    MulMono(0, a, b);
    p := a * b;
  }

  lemma {:induction false} TightIs(n: Bounded, d: Bounded, unit: nat, e: int, eu: nat, tu: nat)
    requires 0 <= e && eu == n.error * unit && tu == (n.value + n.error) * unit
    requires e * (d.value - d.error) * (d.value - d.error) <= eu * (d.value - d.error) + (tu + (d.value - d.error)) * d.error
    ensures TightQuotient(n, d, unit, e + 3)
  {
  }

  lemma {:induction false} SlackDivided(eu: nat, g: nat, ed: nat, least: nat, topUnit: nat, ge: nat)
    requires 0 < least && g == topUnit / least + 1 && ge == g * ed
    ensures 0 <= (eu + ge) / least && (eu + ge) / least * least * least <= eu * least + (topUnit + least) * ed
  {
    var e := (eu + ge) / least;
    DivNonnegative(eu + ge, least);
    assert e * least <= eu + ge;
    MulMono(e * least, eu + ge, least);
    assert (g - 1) * least <= topUnit;
    assert g * least == (g - 1) * least + least;
    MulMono(g * least, topUnit + least, ed);
    SlackProducts(eu, g, ed, least, ge);
  }

  lemma {:induction false} SlackProducts(eu: nat, g: nat, ed: nat, least: nat, ge: nat)
    requires ge == g * ed
    ensures (eu + ge) * least == eu * least + g * least * ed
  {
    MulAssoc(g, ed, least);
    MulAssoc(g, least, ed);
  }

  lemma {:induction false} ErrorIs(n: Bounded, d: Bounded, precision: nat, unit: nat, g: nat)
    requires 2 * d.error < d.value && unit == P2(precision) && g == (n.value + n.error) * unit / (d.value - d.error) + 1
    ensures DivideBounded(n, d, precision).Some?
    ensures DivideBounded(n, d, precision).value.error == (n.error * unit + g * d.error) / (d.value - d.error) + 3
  {
    hide P2, Pow;
  }

  lemma {:induction false} GreatestAtMost(top: nat, unit: nat, least: nat) returns (g: nat)
    requires 0 < least && unit <= 4 * least
    ensures g == top * unit / least + 1 && g <= 4 * top + 1
  {
    MulMono(unit, 4 * least, top);
    MulMono(0, unit, top);
    DivNonnegative(top * unit, least);
    DivBelow(top * unit, least, 4 * top + 1);
    assert (4 * top + 1) * least == top * (4 * least) + least;
    g := top * unit / least + 1;
  }

  lemma {:induction false} QuarterProducts(unit: nat, least: nat, size: nat, en: nat)
    requires unit <= 4 * least
    ensures size * unit <= size * (4 * least) && en * unit <= en * (4 * least)
  {
    MulMono(unit, 4 * least, size);
    MulMono(unit, 4 * least, en);
  }

  lemma {:induction false} SlackAtMost(en: nat, unit: nat, g: nat, ed: nat, least: nat, size: nat, top: nat)
    requires 0 < least && g <= 4 * top + 1 && top <= size * unit && size * unit <= size * (4 * least) && en * unit <= en * (4 * least)
    ensures (en * unit + g * ed) / least <= 4 * en + (16 * size + 1) * ed
  {
    var s := 16 * size + 1;
    assert g <= s * least by {
      assert s * least == 4 * (size * (4 * least)) + least;
    }
    MulMono(g, s * least, ed);
    var bound := 4 * en + s * ed;
    assert bound * least == en * (4 * least) + s * least * ed by {
      assert s * ed * least == s * least * ed;
      assert (4 * en + s * ed) * least == 4 * en * least + s * ed * least;
    }
    DivBelow(en * unit + g * ed, least, bound + 1);
    assert (bound + 1) * least == bound * least + least;
  }

  /** The quotient is at most the greatest one. */
  lemma {:induction false} TargetBelow(n: Bounded, d: Bounded, unit: nat, x: real, y: real, t: real, g: int)
    requires d.error + d.error < d.value && Holds(n, x) && Holds(d, y) && Times(t, y) == Times(unit as real, x)
    requires g == (n.value + n.error) * unit / (d.value - d.error) + 1
    ensures 0.0 < y && Abs(t) <= g as real
  {
    var least, top := d.value - d.error, n.value + n.error;
    MulMono(0, top, unit);
    FloorReal(top * unit, least, g - 1);
    RealMul(top, unit);
    QuotientAtMost(t, y, unit as real, x, top as real, least as real, (g - 1) as real, g as real);
  }

  lemma {:induction false} QuotientAtMost(t: real, y: real, u: real, x: real, top: real, least: real, f: real, g: real)
    requires 0.0 <= u && 0.0 < least <= y && -top <= x <= top && Times(t, y) == Times(u, x) && g == f + 1.0
    requires top * u < Times(f, least) + least
    ensures Abs(t) <= g
  {
    var bound := g * least;
    assert bound == Times(f, least) + least;
    SignedProduct(u, x, top);
    Negated(t, y);
    if t > g { ScaledGreater(t, g, y, least); }
    if t < -g { ScaledGreater(-t, g, y, least); }
  }

  lemma {:induction false} Negated(a: real, b: real)
    ensures Times(-a, b) == -Times(a, b)
  {
  }

  lemma {:induction false} SignedProduct(u: real, x: real, top: real)
    requires 0.0 <= u && -top <= x <= top
    ensures -(top * u) <= Times(u, x) <= top * u
  {
    RMulMono(x, top, u);
    RMulMono(-top, x, u);
  }

  lemma {:induction false} ScaledGreater(t: real, g: real, y: real, least: real)
    requires 0.0 < least <= y && g < t && 0.0 <= g * least
    ensures g * least < Times(t, y)
  {
    if g < 0.0 { RMulStrict(g, 0.0, least); }
    RMulStrict(g, t, least);
    RMulMono(least, y, t);
  }

  /** How far the computed quotient is off, times the denominator. */
  lemma {:induction false} GapBound(n: Bounded, d: Bounded, unit: nat, x: real, y: real, t: real, g: int, value: int)
    requires 0 < d.value && Holds(n, x) && Holds(d, y) && Times(t, y) == Times(unit as real, x) && Abs(t) <= g as real
    requires value == n.value * unit / d.value
    ensures Abs(Times(t - value as real, d.value as real)) <= (n.error * unit + g * d.error) as real + d.value as real
  {
    hide Times;
    var nu := FloorProduct(n.value, unit, d.value, value);
    var en := RealProduct(n.error, unit);
    var ged := RealProduct(g, d.error);
    GapReal(t, value as real, d.value as real, y, unit as real, x, n.value as real, n.error as real, d.error as real,
            g as real, nu, en, ged);
  }

  lemma {:induction false} FloorProduct(a: nat, b: nat, d: nat, f: int) returns (ab: real)
    requires 0 < d && f == a * b / d
    ensures ab == Times(a as real, b as real)
    ensures Times(f as real, d as real) <= ab < Times(f as real, d as real) + d as real
  {
    MulMono(0, a, b);
    FloorReal(a * b, d, f);
    RealMul(a, b);
    ab := (a * b) as real;
  }

  lemma {:induction false} RealProduct(a: int, b: int) returns (ab: real)
    ensures ab == Times(a as real, b as real) && ab == (a * b) as real
  {
    RealMul(a, b);
    ab := (a * b) as real;
  }

  lemma {:induction false} GapReal(t: real, v: real, d: real, y: real, u: real, x: real, n: real, en: real, ed: real, g: real,
      nu: real, enu: real, ged: real)
    requires nu == Times(n, u) && enu == Times(en, u) && ged == Times(g, ed)
    requires 0.0 <= u && Times(t, y) == Times(u, x) && Times(v, d) <= nu < Times(v, d) + d
    requires Abs(x - n) <= en && Abs(y - d) <= ed && Abs(t) <= g
    ensures Abs(Times(t - v, d)) <= enu + ged + d
  {
    hide Times;
    GapSum(t, v, d, y, u, x, n);
    ProductWithin(x - n, u, en, u);
    ProductWithin(t, d - y, g, ed);
  }

  lemma {:induction false} GapSum(t: real, v: real, d: real, y: real, u: real, x: real, n: real)
    requires Times(t, y) == Times(u, x)
    ensures Times(t - v, d) == Times(x - n, u) + Times(t, d - y) + (Times(n, u) - Times(v, d))
  {
    assert t * y == u * x;
  }

  lemma {:induction false} ProductWithin(a: real, b: real, a': real, b': real)
    requires Abs(a) <= a' && Abs(b) <= b'
    ensures Abs(Times(a, b)) <= Times(a', b') && Times(a', b') == a' * b'
  {
    RMulMono(Abs(a), a', Abs(b));
    RMulMono(Abs(b), b', a');
  }

  lemma {:induction false} CloseDivision(t: real, value: int, f: int, d: Bounded, slack: nat, least: nat)
    requires 0 < least <= d.value && f == slack / least && 0 <= f
    requires Abs(Times(t - value as real, d.value as real)) <= slack as real + d.value as real
    ensures Abs(t - value as real) <= (f + 3) as real
  {
    FloorReal(slack, least, f);
    CloseReal(t - value as real, d.value as real, slack as real, f as real, least as real);
  }

  lemma {:induction false} CloseReal(w: real, d: real, slack: real, f: real, least: real)
    requires 0.0 < least <= d && 0.0 <= f && slack < Times(f, least) + least && Abs(Times(w, d)) <= slack + d
    ensures Abs(w) <= f + 2.0
  {
    RMulMono(least, d, f);
    RDistribute(f, 2.0, d);
    AbsScale(w, d);
    ScaledOrder(Abs(w) * d, (f + 2.0) * d, Abs(w), f + 2.0, d);
  }

  // ----- Reducing angles ----------------------------------------------------------------------------

  /** Exponent of the leading bit. */
  function TopExponent(x: Parts): int
  {
    x.exponent + BitLength(x.significand) - 1
  }

  lemma {:induction false} TopExponentBounds(x: Parts)
    requires 0 < x.significand
    ensures Two(TopExponent(x)) <= Val(x.significand, x.exponent) < Two(TopExponent(x) + 1)
  {
    hide P2, Pow, Two, Val, BitLength;
    var m, e := x.significand, x.exponent;
    BitLengthBounds(m);
    var l := BitLength(m);
    ValPower(l - 1, e);
    ValPower(l, e);
    if P2(l - 1) < m { ValStrict(P2(l - 1), m, e); }
    ValStrict(m, P2(l), e);
  }

  /** The largest multiple of the unit that does not exceed the magnitude, counted in units. */
  function ToFixed(x: Parts, precision: nat): (v: int)
    ensures 0 <= v
  {
    hide P2, Pow;
    var shift := x.exponent + precision;
    MulMono(0, x.significand, P2(if shift >= 0 then shift else 0));
    DivNonnegative(x.significand, P2(if shift >= 0 then 0 else -shift));
    if shift >= 0 then x.significand * P2(shift) else x.significand / P2(-shift)
  }

  /** Truncation loses less than a unit. */
  lemma {:induction false} ToFixedNear(x: Parts, precision: nat)
    ensures var exact := Times(P2(precision) as real, Val(x.significand, x.exponent));
      ToFixed(x, precision) as real <= exact < ToFixed(x, precision) as real + 1.0
  {
    hide P2, Pow, Two, Val;
    var m, e, shift := x.significand, x.exponent, x.exponent + precision;
    ValScaled(m, e, precision);
    if shift >= 0 {
      ValShift(m, 0, shift);
      ValWhole(m * P2(shift));
    } else {
      FloorVal(m, -shift);
    }
  }

  lemma {:induction false} ValScaled(m: nat, e: int, precision: nat)
    ensures Times(P2(precision) as real, Val(m, e)) == Val(m, e + precision)
  {
    hide P2, Pow, Two, RPow;
    TwoAdd(e, precision);
    TwoNat(precision);
    RMulAssoc(m as real, Two(e), Two(precision));
  }

  lemma {:induction false} FloorVal(m: nat, d: int)
    requires 0 < d
    ensures (m / P2(d)) as real <= Val(m, -d) < (m / P2(d)) as real + 1.0
  {
    hide P2, Pow, Two, Val;
    ValScaled(m, -d, d);
    ValWhole(m);
    FloorReal(m, P2(d), m / P2(d));
    FloorBetween(Val(m, -d), (m / P2(d)) as real, P2(d) as real, m as real);
  }

  lemma {:induction false} FloorBetween(x: real, f: real, d: real, n: real)
    requires 0.0 < d && Times(d, x) == n && Times(f, d) <= n < Times(f, d) + d
    ensures f <= x < f + 1.0
  {
    RDistribute(f, 1.0, d);
    ScaledOrder(f * d, x * d, f, x, d);
    ScaledOrder(x * d, (f + 1.0) * d, x, f + 1.0, d);
  }

  /** A remainder at a precision, in a quadrant of four. */
  datatype ReducedAngle = ReducedAngle(remainder: nat, quadrant: nat)

  /** `|x| = turns * pi/2 + remainder` to within eight units, for a whole number of turns that agrees
      with the quadrant modulo four and leaves no more than a quarter turn and two units. */
  ghost predicate Reduces(x: Parts, precision: nat, r: ReducedAngle, turns: nat, circle: real)
  {
    && turns % 4 == r.quadrant
    && var unit := P2(precision) as real;
       && r.remainder as real <= Times(unit, circle) / 2.0 + 2.0
       && Abs(Times(unit, Val(x.significand, x.exponent)) - Times(turns as real, Times(unit, circle) / 2.0)
              - r.remainder as real) <= 8.0
  }

  /** Takes quarter turns off an angle. The bits asked of 2/pi grow with the angle, so that the error of
      the product stays below two units however large it is. */
  method ReduceAngle(x: Parts, precision: nat, pi: CachedConstant, twoOverPi: CachedConstant)
    returns (r: ReducedAngle, ghost turns: nat)
    requires 0 < x.significand && 5 <= precision && precision + 4 * STEP <= MAX_PRECISION
    requires TopExponent(x) + precision + 9 + 4 * STEP <= MAX_PRECISION
    requires pi.Valid() && pi.constant == PI && twoOverPi.Valid() && twoOverPi.constant == TWO_OVER_PI
    modifies pi, twoOverPi
    ensures pi.Valid() && twoOverPi.Valid()
    ensures r.quadrant == turns % 4 && 5 * r.remainder <= 8 * P2(precision)
    ensures forall circle: real :: IsPi(circle) ==> Reduces(x, precision, r, turns, circle)
  {
    hide P2, Pow, BitLength, Serves, Reduces, IsPi;
    var top := TopExponent(x);
    if top < 0 {
      SmallAngle(x, precision);
      return ReducedAngle(ToFixed(x, precision), 0), 0;
    }
    var constantPrecision := top + 1 + precision + 8;
    var inverse := twoOverPi.At(constantPrecision, pi);
    var circle := pi.At(precision, pi);
    var shift := constantPrecision - x.exponent - precision;
    MulMono(0, x.significand, inverse);
    DivNonnegative(x.significand * inverse, P2(shift));
    var all := x.significand * inverse / P2(shift);
    var unit := P2(precision);
    DivNonnegative(all, unit);
    turns := all / unit;
    var quadrant := (if all / unit % 2 != 0 then 1 else 0) + (if all / P2(precision + 1) % 2 != 0 then 2 else 0);
    var kept := all % unit;
    MulMono(0, kept, circle);
    DivNonnegative(kept * circle, P2(precision + 1));
    r := ReducedAngle(kept * circle / P2(precision + 1), quadrant);
    LargeAngle(x, precision, inverse, circle, all, r, turns, kept);
  }

  lemma {:induction false} SmallAngle(x: Parts, precision: nat)
    requires 0 < x.significand && TopExponent(x) < 0
    ensures 5 * ToFixed(x, precision) <= 8 * P2(precision)
    ensures forall circle: real :: IsPi(circle) ==> Reduces(x, precision, ReducedAngle(ToFixed(x, precision), 0), 0, circle)
  {
    hide P2, Pow, Two, Val, ToFixed, Times, IsPi;
    ToFixedNear(x, precision);
    BelowOne(x, precision);
    forall circle: real | IsPi(circle)
      ensures Reduces(x, precision, ReducedAngle(ToFixed(x, precision), 0), 0, circle)
    {
      PiBounds(circle);
      HalfCircle(P2(precision) as real, circle);
      NoTurns(Times(P2(precision) as real, circle) / 2.0);
    }
  }

  lemma {:induction false} BelowOne(x: Parts, precision: nat)
    requires 0 < x.significand && TopExponent(x) < 0
    ensures Times(P2(precision) as real, Val(x.significand, x.exponent)) < P2(precision) as real
  {
    hide P2, Pow, Two, Val;
    var m, e := x.significand, x.exponent;
    ValScaled(m, e, precision);
    BitLengthBounds(m);
    ValStrict(m, P2(BitLength(m)), e + precision);
    ValPower(BitLength(m), e + precision);
    TwoMono(e + precision + BitLength(m), precision);
    TwoNat(precision);
  }

  lemma {:induction false} HalfCircle(u: real, circle: real)
    requires 0.0 <= u && 2.0 <= circle
    ensures u <= Times(u, circle) / 2.0
  {
    RMulMono(2.0, circle, u);
  }

  lemma {:induction false} NoTurns(x: real)
    ensures Times(0 as real, x) == 0.0
  {
  }

  lemma {:induction false} LargeAngle(x: Parts, precision: nat, inverse: nat, circle: nat, all: nat, r: ReducedAngle,
      turns: nat, kept: nat)
    requires 0 < x.significand && 0 <= TopExponent(x) && 5 <= precision
    requires var constantPrecision := TopExponent(x) + precision + 9;
      && Serves(TWO_OVER_PI, constantPrecision, inverse) && Serves(PI, precision, circle)
      && all == x.significand * inverse / P2(constantPrecision - x.exponent - precision)
    requires turns == all / P2(precision) && kept == all % P2(precision)
    requires r.remainder == kept * circle / P2(precision + 1)
    requires r.quadrant == (if all / P2(precision) % 2 != 0 then 1 else 0)
                         + (if all / P2(precision + 1) % 2 != 0 then 2 else 0)
    ensures r.quadrant == turns % 4 && 5 * r.remainder <= 8 * P2(precision)
    ensures forall pi: real :: IsPi(pi) ==> Reduces(x, precision, r, turns, pi)
  {
    hide P2, Pow, BitLength, IsNear, IsPi, Val, Times;
    QuadrantBits(all, precision);
    RemainderSmall(kept, circle, precision, r.remainder);
    forall pi: real | IsPi(pi)
      ensures Reduces(x, precision, r, turns, pi)
    {
      LargeAngleNear(x, precision, inverse, circle, all, r, turns, kept, pi);
    }
  }

  lemma {:induction false} QuadrantBits(all: nat, precision: nat)
    ensures all / P2(precision) % 4 == (if all / P2(precision) % 2 != 0 then 1 else 0)
                                     + (if all / P2(precision + 1) % 2 != 0 then 2 else 0)
  {
    hide P2, Pow;
    P2Step(precision);
    DivNonnegative(all, P2(precision));
    DivDiv(all, P2(precision), 2);
    TwoBits(all / P2(precision));
  }

  lemma {:induction false} TwoBits(n: nat)
    ensures n % 4 == (if n % 2 != 0 then 1 else 0) + (if n / 2 % 2 != 0 then 2 else 0)
  {
  }

  /** What is kept of a turn is less than a right angle. */
  lemma {:induction false} RemainderSmall(kept: nat, circle: nat, precision: nat, remainder: nat)
    requires kept < P2(precision) && 5 <= precision && PiSized(precision, circle)
    requires remainder == kept * circle / P2(precision + 1)
    ensures 5 * remainder <= 8 * P2(precision)
  {
    hide P2, Pow;
    var unit := P2(precision);
    P2Step(precision);
    ThirtyTwo(precision);
    RemainderOfTurn(kept, circle, unit, remainder);
  }

  lemma {:induction false} ThirtyTwo(precision: nat)
    requires 5 <= precision
    ensures 32 <= P2(precision)
  {
    assert P2(5) == 32 by { assert Pow(2, 5) == 32; }
    hide P2, Pow;
    P2Mono(5, precision);
  }

  lemma {:induction false} RemainderOfTurn(kept: nat, circle: nat, unit: nat, remainder: nat)
    requires kept < unit && 32 <= unit && 20 * circle <= 63 * unit + 20 && remainder == kept * circle / (2 * unit)
    ensures 5 * remainder <= 8 * unit
  {
    MulMono(kept, unit, circle);
    assert remainder * (2 * unit) <= kept * circle;
    assert (2 * remainder) * unit == remainder * (2 * unit);
    MulCancel(2 * remainder, circle, unit);
  }

  lemma {:induction false} LargeAngleNear(x: Parts, precision: nat, inverse: nat, circle: nat, all: nat, r: ReducedAngle,
      turns: nat, kept: nat, pi: real)
    requires 0 < x.significand && 0 <= TopExponent(x) && IsPi(pi)
    requires var constantPrecision := TopExponent(x) + precision + 9;
      && IsNear(TWO_OVER_PI, constantPrecision, inverse) && IsNear(PI, precision, circle)
      && all == x.significand * inverse / P2(constantPrecision - x.exponent - precision)
    requires turns == all / P2(precision) && kept == all % P2(precision) && turns % 4 == r.quadrant
    requires r.remainder == kept * circle / P2(precision + 1)
    ensures Reduces(x, precision, r, turns, pi)
  {
    hide P2, Pow, BitLength, IsPi, Val, Times;
    var unit := P2(precision);
    PiBounds(pi);
    var w := Inverse(pi);
    assert Denotes(PI, pi);
    var exact := ExactTurnsNear(x, precision, inverse, all, w);
    P2Step(precision);
    RemainderNear(kept, circle, unit, r.remainder, pi);
    AllTurns(all, unit, turns, kept);
    KeptBelow(kept as real, unit as real, pi);
    hide *;
    CombineTurns(unit as real, Val(x.significand, x.exponent), w, pi, exact, turns as real, kept as real, all as real,
                 r.remainder as real);
    ReducesIs(x, precision, r, turns, pi);
  }

  lemma {:induction false} KeptBelow(kept: real, u: real, pi: real)
    requires kept <= u && 0.0 <= pi
    ensures Times(kept, pi) / 2.0 <= Times(u, pi) / 2.0
  {
    RMulMono(kept, u, pi);
  }

  lemma {:induction false} ReducesIs(x: Parts, precision: nat, r: ReducedAngle, turns: nat, pi: real)
    requires turns % 4 == r.quadrant && r.remainder as real <= Times(P2(precision) as real, pi) / 2.0 + 2.0
    requires Abs(Times(P2(precision) as real, Val(x.significand, x.exponent))
                 - Times(turns as real, Times(P2(precision) as real, pi) / 2.0) - r.remainder as real) <= 8.0
    ensures Reduces(x, precision, r, turns, pi)
  {
    hide P2, Pow, Val, Times;
  }

  /** The exact number of turns, in units, and how near the computed one is. */
  lemma {:induction false} ExactTurnsNear(x: Parts, precision: nat, inverse: nat, all: nat, w: real) returns (exact: real)
    requires 0 < x.significand && 0 <= TopExponent(x) && Denotes(TWO_OVER_PI, w)
    requires var constantPrecision := TopExponent(x) + precision + 9;
      && IsNear(TWO_OVER_PI, constantPrecision, inverse)
      && all == x.significand * inverse / P2(constantPrecision - x.exponent - precision)
    ensures exact == Times(P2(precision) as real, Times(Val(x.significand, x.exponent), w))
    ensures Abs(exact - all as real) < 1.01
  {
    hide P2, Pow, BitLength, Denotes, Val, Times;
    var constantPrecision: nat := TopExponent(x) + precision + 9;
    var m, width := x.significand, BitLength(x.significand) + 8;
    exact := Times(P2(precision) as real, Times(Val(m, x.exponent), w));
    TurnsProduct(m, x.exponent, precision, width, constantPrecision, w, exact);
    WideEnough(m, width);
    TurnsNear(m, inverse, P2(width), all, exact, Times(P2(constantPrecision) as real, w));
  }

  lemma {:induction false} Inverse(pi: real) returns (w: real)
    requires IsPi(pi) && 3.0 < pi
    ensures w * pi == 2.0 && Denotes(TWO_OVER_PI, w)
  {
    hide IsPi;
    w := 2.0 / pi;
  }

  lemma {:induction false} AllTurns(all: nat, unit: nat, turns: nat, kept: nat)
    requires 0 < unit && turns == all / unit && kept == all % unit
    ensures all as real == Times(turns as real, unit as real) + kept as real && kept < unit
  {
    RealMul(turns, unit);
    assert all == turns * unit + kept;
  }

  lemma {:induction false} TurnsProduct(m: nat, e: int, precision: nat, width: nat, constantPrecision: nat, w: real, exact: real)
    requires constantPrecision == width + e + precision
    requires exact == Times(P2(precision) as real, Times(Val(m, e), w))
    ensures Times(P2(width) as real, exact) == Times(m as real, Times(P2(constantPrecision) as real, w))
  {
    hide P2, Pow, Two, RPow;
    TwoNat(precision);
    TwoNat(width);
    TwoNat(constantPrecision);
    TwoAdd(width, e + precision);
    TwoAdd(e, precision);
    ProductOfFive(P2(width) as real, P2(precision) as real, m as real, Two(e), w, Two(e + precision), P2(constantPrecision) as real);
  }

  lemma {:induction false} ProductOfFive(a: real, b: real, m: real, t: real, w: real, tb: real, all: real)
    requires tb == t * b && all == a * tb
    ensures Times(a, Times(b, Times(m * t, w))) == Times(m, Times(all, w))
  {
    assert m * t * w == t * (m * w);
    RMulAssoc(b, t, m * w);
    assert b * (t * (m * w)) == tb * (m * w);
    RMulAssoc(a, tb, m * w);
    RMulAssoc(m, all, w);
    assert all * (m * w) == (m * all) * w by {
      assert all * (m * w) == m * all * w;
    }
  }

  lemma {:induction false} WideEnough(m: nat, width: nat)
    requires 0 < m && width == BitLength(m) + 8
    ensures 256 * m <= P2(width)
  {
    hide P2, Pow;
    BitLengthBounds(m);
    P2Add(BitLength(m), 8);
    Sixteen();
  }

  lemma {:induction false} TurnsNear(m: nat, t: nat, s: nat, all: nat, exact: real, w: real)
    requires 0 < m && 0 < s && 256 * m <= s && all == m * t / s
    requires Times(s as real, exact) == Times(m as real, w) && Abs(w - t as real) < 2.0
    ensures Abs(exact - all as real) < 1.01
  {
    MulMono(0, m, t);
    FloorReal(m * t, s, all);
    RealMul(m, t);
    TurnsReal(m as real, w, t as real, s as real, exact, all as real, (m * t) as real);
  }

  lemma {:induction false} TurnsReal(m: real, w: real, t: real, s: real, exact: real, all: real, mt: real)
    requires 0.0 < m && 0.0 < s && 256.0 * m <= s && mt == m * t
    requires Times(s, exact) == Times(m, w) && Abs(w - t) < 2.0
    requires Times(all, s) <= mt < Times(all, s) + s
    ensures Abs(exact - all) < 1.01
  {
    ProductWithin(m, w - t, m, 2.0);
    TimesSum(m, w, -t);
    ProductNegated(m, t);
    hide Times;
    TurnsAt(exact, all, s, m, Times(m, w), Times(m, t));
  }

  lemma {:induction false} ProductNegated(a: real, b: real)
    ensures Times(a, -b) == -Times(a, b) && Times(a, b) == a * b
  {
  }

  lemma {:induction false} TurnsAt(exact: real, all: real, s: real, m: real, mw: real, mt: real)
    requires 0.0 < s && 256.0 * m <= s && Times(s, exact) == mw && Abs(mw - mt) <= 2.0 * m
    requires Times(all, s) <= mt < Times(all, s) + s
    ensures Abs(exact - all) < 1.01
  {
    RDistribute(exact, all, s);
    AbsBelow(exact - all, s, 1.01, mw - Times(all, s), 1.01 * s);
  }

  lemma {:induction false} AbsBelow(w: real, d: real, e: real, wd: real, ed: real)
    requires 0.0 < d && wd == w * d && ed == e * d && Abs(wd) < ed
    ensures Abs(w) < e
  {
    ScaledOrder(wd, ed, w, e, d);
    assert -ed == (-e) * d;
    ScaledOrder(-ed, wd, -e, w, d);
  }

  lemma {:induction false} RemainderNear(kept: nat, circle: nat, unit: nat, remainder: nat, pi: real)
    requires 0 < unit && kept < unit && remainder == kept * circle / (2 * unit)
    requires Abs(Times(unit as real, pi) - circle as real) < 2.0
    ensures Abs(Times(kept as real, pi) / 2.0 - remainder as real) < 2.0
  {
    MulMono(0, kept, circle);
    FloorReal(kept * circle, 2 * unit, remainder);
    RealMul(kept, circle);
    ProductWithin(kept as real, Times(unit as real, pi) - circle as real, kept as real, 2.0);
    RemainderAt(kept as real, circle as real, unit as real, remainder as real, pi);
  }

  lemma {:induction false} RemainderAt(k: real, c: real, u: real, r: real, pi: real)
    requires 0.0 <= k < u && Times(r, 2.0 * u) <= k * c < Times(r, 2.0 * u) + 2.0 * u
    requires Abs(Times(k, Times(u, pi) - c)) <= k * 2.0
    ensures Abs(Times(k, pi) / 2.0 - r) < 2.0
  {
    var d, v := k * pi / 2.0 - r, 2.0 * u;
    assert d * v == Times(k, Times(u, pi) - c) + k * c - Times(r, v) by {
      assert k * pi / 2.0 * v == k * (u * pi);
    }
    AbsScale(d, v);
    ScaledOrder(Abs(d) * v, 2.0 * v, Abs(d), 2.0, v);
  }

  lemma {:induction false} CombineTurns(u: real, x: real, w: real, pi: real, exact: real, turns: real, kept: real, all: real, r: real)
    requires exact == Times(u, Times(x, w)) && w * pi == 2.0 && all == Times(turns, u) + kept
    requires Abs(exact - all) < 1.01 && Abs(Times(kept, pi) / 2.0 - r) < 2.0 && 3.13 < pi < 3.15
    ensures Abs(Times(u, x) - Times(turns, Times(u, pi) / 2.0) - r) <= 8.0
  {
    var d := exact - all;
    assert Times(u, x) == exact * pi / 2.0 by { ExactTurns(u, x, w, pi); }
    assert all * pi / 2.0 == Times(turns, Times(u, pi) / 2.0) + Times(kept, pi) / 2.0 by { TurnsOf(turns, u, kept, pi, all); }
    ProductWithin(d, pi, 1.01, 3.15);
    assert exact * pi == all * pi + Times(d, pi) by { RDistribute(exact, all, pi); }
  }

  lemma {:induction false} ExactTurns(u: real, x: real, w: real, pi: real)
    requires w * pi == 2.0
    ensures Times(u, x) == Times(u, Times(x, w)) * pi / 2.0
  {
    RMulAssoc(u, x * w, pi);
    RMulAssoc(x, w, pi);
    assert u * (x * 2.0) == 2.0 * (u * x);
  }

  lemma {:induction false} TurnsOf(turns: real, u: real, kept: real, pi: real, all: real)
    requires all == Times(turns, u) + kept
    ensures all * pi / 2.0 == Times(turns, Times(u, pi) / 2.0) + Times(kept, pi) / 2.0
  {
    RDistribute(turns * u, kept, pi);
    RMulAssoc(turns, u, pi);
    assert turns * (u * pi / 2.0) == turns * (u * pi) / 2.0;
  }
}
