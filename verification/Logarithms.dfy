/** Logarithms: the atanh series of the mantissa in fixed point, the exponent's share, and the three
    bases. */
module Logarithms {
  import opened Powers
  import opened Digits
  import opened Formats
  import opened Rounding
  import opened Limits
  import opened InverseSeries
  import opened Series
  import opened Constants
  import opened Angles
  import opened Evaluate

  // ----- The exact series ---------------------------------------------------------------------------

  /** `z^(2k + 1)`. */
  function OddPower(z: real, k: nat): real
  {
    if k == 0 then z else Times(OddPower(z, k - 1), Times(z, z))
  }

  /** The first `m` terms `z^(2k + 1) / (2k + 1)` of the series of atanh. */
  function AtanhSum(z: real, m: nat): real
  {
    if m == 0 then 0.0 else AtanhSum(z, m - 1) + OddPower(z, m - 1) / (2 * m - 1) as real
  }

  function AtanhSums(z: real): nat -> real
  {
    (m: nat) => AtanhSum(z, m)
  }

  ghost predicate IsAtanh(z: real, t: real)
  {
    IsLimit(AtanhSums(z), t)
  }

  // ----- The computed series ------------------------------------------------------------------------

  function ComputedPower(argument: nat, square: nat, unit: nat, k: nat): (p: int)
    requires 0 < unit
    ensures 0 <= p
  {
    if k == 0 then argument
    else
      MulMono(0, ComputedPower(argument, square, unit, k - 1), square);
      DivNonnegative(ComputedPower(argument, square, unit, k - 1) * square, unit);
      ComputedPower(argument, square, unit, k - 1) * square / unit
  }

  function ComputedSum(argument: nat, square: nat, unit: nat, m: nat): int
    requires 0 < unit
  {
    if m == 0 then 0
    else ComputedSum(argument, square, unit, m - 1) + ComputedPower(argument, square, unit, m - 1) / (2 * m - 1)
  }

  /** The truncated argument, at most a fifth, and its truncated square. */
  ghost predicate SmallArgument(argument: nat, square: nat, unit: nat, z: real)
  {
    && 0 < unit && 0.0 <= z <= 0.2 && argument as real <= Times(z, unit as real) < argument as real + 1.0
    && square == argument * argument / unit
  }

  lemma {:induction false} ArgumentFacts(argument: nat, square: nat, unit: nat, z: real)
    requires SmallArgument(argument, square, unit, z)
    ensures 0 < unit && 0.0 <= z <= 0.2 && 5 * argument <= unit && 0.0 <= Times(z, z) <= 0.04
    ensures square <= unit && 25 * square <= unit
  {
    var u := unit as real;
    RMulMono(z, 0.2, u);
    TermTimes(z, z, 0.2, 0.2);
    MulMono(5 * argument, unit, argument);
    MulMono(5 * argument, unit, unit);
    assert 25 * (argument * argument) <= unit * unit;
    assert square * unit <= argument * argument;
    assert (25 * square) * unit <= unit * unit;
    MulCancel(25 * square, unit, unit);
  }

  /** The square is truncated by less than one and a half units. */
  lemma {:induction false} SquareSlack(argument: nat, square: nat, unit: nat, z: real) returns (q: real)
    requires SmallArgument(argument, square, unit, z)
    ensures q * unit as real == square as real && 0.0 <= q <= Times(z, z)
    ensures Times(Times(z, z) - q, unit as real) <= 1.4
  {
    var u := unit as real;
    q := square as real / u;
    MulMono(0, argument, argument);
    FloorReal(argument * argument, unit, square);
    RealMul(argument, argument);
    SlackAt(z, argument as real, square as real, q, u);
  }

  lemma {:induction false} SlackAt(z: real, a: real, square: real, q: real, u: real)
    requires 0.0 < u && 0.0 <= z <= 0.2 && 0.0 <= a <= Times(z, u) < a + 1.0 && q * u == square && 0.0 <= square
    requires Times(square, u) <= a * a < Times(square, u) + u
    ensures 0.0 <= q <= Times(z, z) && Times(Times(z, z) - q, u) <= 1.4
  {
    var zu, w := z * u, (z * z) * u;
    SquareUnits(z, u, zu, w);
    ScaledOrder(0.0, square, 0.0, q, u);
    SquareGapBound(z, a, zu, u);
    RDistribute(z * z, q, u);
    ScaledOrder(square * u, w * u, square, w, u);
    ScaledOrder(square, w, q, z * z, u);
    ScaledOrder(w * u, (square + 1.4) * u, w, square + 1.4, u);
  }

  lemma {:induction false} SquareUnits(z: real, u: real, zu: real, w: real)
    requires zu == z * u && w == (z * z) * u
    ensures w * u == zu * zu
  {
    RMulSwap(z, z, u, u);
    RMulAssoc(z * z, u, u);
  }

  lemma {:induction false} SquareGapBound(z: real, a: real, zu: real, u: real)
    requires 0.0 <= z <= 0.2 && 0.0 <= a <= zu < a + 1.0 && zu == Times(z, u) && 0.0 < u
    ensures Times(a, a) <= Times(zu, zu) <= Times(a, a) + 0.4 * u
  {
    hide Times;
    var d, w := zu - a, zu + a;
    var most := UpTo(z, 0.2, u);
    var dw := UpTo(d, 1.0, w);
    SquareGap(zu, a, d, w, dw, Times(zu, zu), Times(a, a));
  }

  lemma {:induction false} UpTo(x: real, limit: real, u: real) returns (p: real)
    requires 0.0 <= x <= limit && 0.0 <= u
    ensures p == Times(x, u) && 0.0 <= p <= limit * u
  {
    p := x * u;
    RMulMono(0.0, x, u);
    RMulMono(x, limit, u);
  }

  lemma {:induction false} SquareGap(zu: real, a: real, d: real, w: real, dw: real, z2: real, a2: real)
    requires d == zu - a && w == zu + a && dw == Times(d, w) && z2 == Times(zu, zu) && a2 == Times(a, a)
    ensures z2 - a2 == dw
  {
  }

  // ----- Errors -------------------------------------------------------------------------------------

  lemma {:induction false} ComputedPowerStep(argument: nat, square: nat, unit: nat, k: nat)
    requires 0 < unit && 0 < k
    ensures ComputedPower(argument, square, unit, k) == ComputedPower(argument, square, unit, k - 1) * square / unit
    ensures ComputedPower(argument, square, unit, 0) == argument
  {
  }

  lemma {:induction false} PowerHalves(argument: nat, square: nat, unit: nat, z: real, k: nat)
    requires SmallArgument(argument, square, unit, z) && 0 < k
    ensures 0 < unit && 2 * ComputedPower(argument, square, unit, k) <= ComputedPower(argument, square, unit, k - 1)
  {
    hide ComputedPower;
    ArgumentFacts(argument, square, unit, z);
    ComputedPowerStep(argument, square, unit, k);
    HalvedProduct(ComputedPower(argument, square, unit, k - 1), square, unit);
  }

  lemma {:induction false} HalvedProduct(p: int, square: int, unit: int)
    requires 0 <= p && 0 < unit && 25 * square <= unit
    ensures 2 * (p * square / unit) <= p
  {
    MulMono(25 * square, unit, p);
    var q, ps := p * square / unit, p * square;
    assert q * unit <= ps;
    assert 25 * ps == p * (25 * square);
    MulSides(q, p, unit, ps);
  }

  lemma {:induction false} MulSides(q: int, p: int, unit: int, ps: int)
    requires 0 < unit && q * unit <= ps && 25 * ps <= unit * p && 0 <= p
    ensures 2 * q <= p
  {
    assert (25 * q) * unit <= p * unit;
    MulCancel(25 * q, p, unit);
  }

  lemma {:induction false} PowerSmall(argument: nat, square: nat, unit: nat, z: real, k: nat)
    requires SmallArgument(argument, square, unit, z)
    ensures 0 < unit && 5 * ComputedPower(argument, square, unit, k) <= unit
  {
    hide ComputedPower;
    ArgumentFacts(argument, square, unit, z);
    if k == 0 {
      ComputedPowerStep(argument, square, unit, 1);
    } else {
      PowerSmall(argument, square, unit, z, k - 1);
      PowerHalves(argument, square, unit, z, k);
    }
  }

  /** The number of terms grows no faster than the precision. */
  lemma {:induction false} PowerVanishes(argument: nat, square: nat, unit: nat, z: real, k: nat)
    requires SmallArgument(argument, square, unit, z)
    ensures 0 < unit && ComputedPower(argument, square, unit, k) * P2(k) <= unit
  {
    hide ComputedPower, P2, Pow, SmallArgument;
    PowerSmall(argument, square, unit, z, k);
    P2Zero();
    if k > 0 {
      PowerVanishes(argument, square, unit, z, k - 1);
      PowerHalves(argument, square, unit, z, k);
      P2Step(k - 1);
      MulMono(2 * ComputedPower(argument, square, unit, k), ComputedPower(argument, square, unit, k - 1), P2(k - 1));
    }
  }

  lemma {:induction false} TermsWithin(argument: nat, square: nat, precision: nat, z: real, k: nat)
    requires SmallArgument(argument, square, P2(precision), z) && 0 < ComputedPower(argument, square, P2(precision), k)
    ensures k <= precision
  {
    hide ComputedPower, P2, Pow, SmallArgument;
    PowerVanishes(argument, square, P2(precision), z, k);
    MulMono(1, ComputedPower(argument, square, P2(precision), k), P2(k));
    if k > precision { P2Strict(precision, k); }
  }

  lemma {:induction false} SumSmall(argument: nat, square: nat, unit: nat, z: real, m: nat)
    requires SmallArgument(argument, square, unit, z)
    ensures 0 < unit
    ensures ComputedSum(argument, square, unit, m) + 2 * ComputedPower(argument, square, unit, m) <= 2 * argument
  {
    hide ComputedPower, ComputedSum, SmallArgument;
    ArgumentFacts(argument, square, unit, z);
    if m == 0 {
      ComputedStep(argument, square, unit, 0);
      ComputedPowerStep(argument, square, unit, 1);
    } else {
      SumSmall(argument, square, unit, z, m - 1);
      ComputedStep(argument, square, unit, m - 1);
      PowerHalves(argument, square, unit, z, m);
      DivBelow(ComputedPower(argument, square, unit, m - 1), 2 * m - 1, ComputedPower(argument, square, unit, m - 1) + 1);
      MulMono(1, 2 * m - 1, ComputedPower(argument, square, unit, m - 1) + 1);
    }
  }

  lemma {:induction false} OddPowerStep(u: real, z: real, k: nat)
    requires 0 < k
    ensures Times(u, OddPower(z, k)) == Times(Times(u, OddPower(z, k - 1)), Times(z, z))
    ensures OddPower(z, 0) == z
  {
    RMulAssoc(u, OddPower(z, k - 1), z * z);
  }

  /** A computed power is below the exact one, by at most two units. */
  lemma {:induction false} PowerError(argument: nat, square: nat, unit: nat, z: real, k: nat)
    requires SmallArgument(argument, square, unit, z)
    ensures 0 < unit
    ensures var t, c := Times(unit as real, OddPower(z, k)), ComputedPower(argument, square, unit, k) as real;
      0.0 <= c <= t <= c + 2.0
  {
    hide ComputedPower, OddPower, Times;
    ArgumentFacts(argument, square, unit, z);
    if k == 0 {
      ComputedPowerStep(argument, square, unit, 1);
      OddPowerStep(unit as real, z, 1);
      TimesSwap(unit as real, z);
      TimesSwap(z, unit as real);
      assert Times(unit as real, z) == Times(z, unit as real);
    } else {
      PowerError(argument, square, unit, z, k - 1);
      PowerSmall(argument, square, unit, z, k - 1);
      OddPowerStep(unit as real, z, k);
      ComputedPowerStep(argument, square, unit, k);
      var q := SquareSlack(argument, square, unit, z);
      PowerErrorStep(ComputedPower(argument, square, unit, k - 1), square, unit, ComputedPower(argument, square, unit, k),
                     q, Times(z, z), Times(unit as real, OddPower(z, k - 1)), Times(unit as real, OddPower(z, k)));
    }
  }

  lemma {:induction false} PowerErrorStep(c: nat, square: nat, unit: nat, next: int, q: real, zz: real, t: real, t': real)
    requires 0 < unit && 5 * c <= unit && next == c * square / unit && 0 <= next
    requires q * unit as real == square as real && 0.0 <= q <= zz <= 0.04 && Times(zz - q, unit as real) <= 1.4
    requires c as real <= t <= c as real + 2.0 && t' == Times(t, zz)
    ensures next as real <= t' <= next as real + 2.0
  {
    hide Times;
    DivideByOne(c * square / unit);
    var fd, cq := FloorStep(c, square, unit, 1, next, q);
    var gap := SlackScaled(c as real, zz - q, unit as real);
    NamedProducts(next as real, c as real, q, 2.0, zz, t');
    ErrorStep(t, c as real, zz, q, 1.0, t', next as real, 2.0, 0.28, fd, cq, t', gap, Times(2.0, zz));
  }

  lemma {:induction false} DivideByOne(x: int)
    ensures x / 1 == x
  {
  }

  lemma {:induction false} NamedProducts(f: real, c: real, q: real, e: real, x: real, t: real)
    ensures Times(f, 1.0) == f * 1.0 && Times(c, q) == c * q && Times(e, x) == e * x && Times(t, 1.0) == t
  {
  }

  lemma {:induction false} SlackScaled(c: real, s: real, u: real) returns (gap: real)
    requires 0.0 <= 5.0 * c <= u && 0.0 <= s && Times(s, u) <= 1.4
    ensures gap == Times(c, s) && gap <= 0.28
  {
    gap := c * s;
    RMulMono(5.0 * c, u, s);
  }

  lemma {:induction false} AtanhStep(u: real, z: real, m: nat)
    ensures AtanhSum(z, m + 1) == AtanhSum(z, m) + OddPower(z, m) / (2 * m + 1) as real
    ensures AtanhSum(z, 0) == 0.0
  {
    hide OddPower;
  }

  lemma {:induction false} ComputedStep(argument: nat, square: nat, unit: nat, m: nat)
    requires 0 < unit
    ensures ComputedSum(argument, square, unit, m + 1)
         == ComputedSum(argument, square, unit, m) + ComputedPower(argument, square, unit, m) / (2 * m + 1)
    ensures ComputedSum(argument, square, unit, 0) == 0
  {
    hide ComputedPower;
  }

  /** The share of one term: its power over an odd number. */
  lemma {:induction false} TermNear(u: real, z: real, m: nat, p: int) returns (t: real)
    requires 0 <= p && p as real <= Times(u, OddPower(z, m)) <= p as real + 2.0
    ensures t == Times(u, OddPower(z, m) / (2 * m + 1) as real)
    ensures (p / (2 * m + 1)) as real <= t <= (p / (2 * m + 1)) as real + 3.0
    ensures 0.0 <= t <= Times(u, OddPower(z, m))
  {
    hide OddPower;
    var d := 2 * m + 1;
    t := Times(u, OddPower(z, m) / d as real);
    SharedQuotient(u, OddPower(z, m), d as real, t);
    FloorReal(p, d, p / d);
    DivNonnegative(p, d);
    ShareBounds(t, d as real, Times(u, OddPower(z, m)), p as real, (p / d) as real);
  }

  lemma {:induction false} SharedQuotient(u: real, o: real, d: real, t: real)
    requires 0.0 < d && t == Times(u, o / d)
    ensures Times(t, d) == Times(u, o)
  {
    var q := o / d;
    assert q * d == o;
    RMulAssoc(u, q, d);
  }

  lemma {:induction false} ShareBounds(t: real, d: real, n: real, p: real, f: real)
    requires 1.0 <= d && Times(t, d) == n && 0.0 <= p <= n <= p + 2.0 && 0.0 <= f && Times(f, d) <= p < Times(f, d) + d
    ensures f <= t <= f + 3.0 && 0.0 <= t <= n
  {
    RDistribute(f, 3.0, d);
    ScaledOrder(f * d, t * d, f, t, d);
    ScaledOrder(t * d, (f + 3.0) * d, t, f + 3.0, d);
    RMulMono(1.0, d, t);
  }

  lemma {:induction false} SumError(argument: nat, square: nat, unit: nat, z: real, m: nat)
    requires SmallArgument(argument, square, unit, z)
    ensures 0 < unit
    ensures Abs(Times(unit as real, AtanhSum(z, m)) - ComputedSum(argument, square, unit, m) as real) <= 3.0 * m as real
  {
    hide ComputedPower, ComputedSum, OddPower, AtanhSum, Times;
    ArgumentFacts(argument, square, unit, z);
    AtanhStep(unit as real, z, if m > 0 then m - 1 else 0);
    ComputedStep(argument, square, unit, if m > 0 then m - 1 else 0);
    TimesSum(unit as real, 0.0, 0.0);
    if m > 0 {
      SumError(argument, square, unit, z, m - 1);
      PowerError(argument, square, unit, z, m - 1);
      var t := TermNear(unit as real, z, m - 1, ComputedPower(argument, square, unit, m - 1));
      TimesSum(unit as real, AtanhSum(z, m - 1), OddPower(z, m - 1) / (2 * m - 1) as real);
    }
  }

  lemma {:induction false} OddPowerHalves(z: real, k: nat)
    requires 0.0 <= z <= 0.2
    ensures 0.0 <= 2.0 * OddPower(z, k + 1) <= OddPower(z, k)
  {
    hide OddPower;
    OddPowerStep(1.0, z, k + 1);
    TimesOne(OddPower(z, k + 1));
    TimesOne(OddPower(z, k));
    TermTimes(z, z, 0.2, 0.2);
    if k > 0 { OddPowerHalves(z, k - 1); }
    HalvedPower(OddPower(z, k), Times(z, z), OddPower(z, k + 1));
  }

  lemma {:induction false} HalvedPower(o: real, zz: real, o': real)
    requires 0.0 <= o && 0.0 <= zz <= 0.04 && o' == Times(o, zz)
    ensures 0.0 <= 2.0 * o' <= o
  {
    TermTimes(o, zz, 0.04, o);
  }

  lemma {:induction false} AtanhTail(z: real, n: nat, m: nat)
    requires 0.0 <= z <= 0.2 && n <= m
    ensures 0.0 <= OddPower(z, m)
    ensures Abs(AtanhSum(z, m) - AtanhSum(z, n)) <= 2.0 * OddPower(z, n) - 2.0 * OddPower(z, m)
  {
    hide OddPower, AtanhSum;
    OddPowerHalves(z, m);
    if n < m {
      AtanhTail(z, n, m - 1);
      OddPowerHalves(z, m - 1);
      AtanhStep(1.0, z, m - 1);
      Shrunk(OddPower(z, m - 1), (2 * m - 1) as real);
    }
  }

  lemma {:induction false} Shrunk(o: real, d: real)
    requires 0.0 <= o && 1.0 <= d
    ensures 0.0 <= o / d <= o
  {
    var q := o / d;
    assert q * d == o;
    RMulMono(1.0, d, o);
    ScaledOrder(0.0, o, 0.0, q, d);
    ScaledOrder(o, o * d, q, o, d);
  }

  /** Once a power has vanished, the computed sum is near every later partial sum. */
  lemma {:induction false} SumNearAll(argument: nat, square: nat, unit: nat, z: real, n: nat, m: nat)
    requires SmallArgument(argument, square, unit, z) && n <= m && ComputedPower(argument, square, unit, n) == 0
    ensures 0 < unit
    ensures Abs(Times(unit as real, AtanhSum(z, m)) - ComputedSum(argument, square, unit, n) as real) <= 3.0 * n as real + 4.0
  {
    hide ComputedPower, ComputedSum, OddPower, AtanhSum, Times;
    ArgumentFacts(argument, square, unit, z);
    SumError(argument, square, unit, z, n);
    PowerError(argument, square, unit, z, n);
    AtanhTail(z, n, m);
    var bound := 2.0 * OddPower(z, n);
    TimesWithin(unit as real, AtanhSum(z, m), AtanhSum(z, n), bound);
    TimesSum(unit as real, OddPower(z, n), OddPower(z, n));
  }

  /** The doubled sum, against twice the number the series approaches. */
  lemma {:induction false} AtanhNear(argument: nat, square: nat, unit: nat, z: real, n: nat, t: real)
    requires SmallArgument(argument, square, unit, z) && ComputedPower(argument, square, unit, n) == 0 && IsAtanh(z, t)
    ensures 0 < unit
    ensures Abs(Times(unit as real, 2.0 * t) - (2 * ComputedSum(argument, square, unit, n)) as real) <= 6.0 * n as real + 8.0
  {
    hide ComputedPower, ComputedSum, AtanhSum, Times;
    ArgumentFacts(argument, square, unit, z);
    var u, value := unit as real, ComputedSum(argument, square, unit, n) as real;
    var s, w := AtanhSums(z), (m: nat) => Times(u, AtanhSum(z, m));
    forall m: nat | n <= m
      ensures Abs(value - w(m)) <= 3.0 * n as real + 4.0
    {
      SumNearAll(argument, square, unit, z, n, m);
    }
    assert forall m: nat :: w(m) == Times(u, s(m));
    LimitScaled(s, w, u, t);
    LimitWithin(w, Times(u, t), value, 3.0 * n as real + 4.0, n);
    TimesSum(u, t, t);
  }

  // ----- The mantissa -------------------------------------------------------------------------------

  function SignificandUnit(significand: nat): (unit: nat)
    requires 0 < significand
    ensures 0 < unit
  {
    BitLengthBounds(significand);
    var half := P2(BitLength(significand) - 1);
    if 3 * half <= 2 * significand then 2 * half else half
  }

  function LogExponent(x: Parts): int
    requires 0 < x.significand
  {
    x.exponent + BitLength(x.significand) - if 3 * P2(BitLength(x.significand) - 1) <= 2 * x.significand then 0 else 1
  }

  /** The significand is between three quarters of its unit and one and a half times it, and together
      with the exponent stands for the same number. */
  lemma {:induction false} MantissaRange(x: Parts)
    requires 0 < x.significand
    ensures var unit := SignificandUnit(x.significand);
      && 3 * unit <= 4 * x.significand && 2 * x.significand < 3 * unit
      && Times(Val(x.significand, x.exponent), unit as real) == Times(x.significand as real, Two(LogExponent(x)))
  {
    hide P2, Pow, BitLength, Two;
    var m := x.significand;
    var w := BitLength(m) - 1;
    BitLengthBounds(m);
    P2Step(w);
    var shift := if 3 * P2(w) <= 2 * m then w + 1 else w;
    assert SignificandUnit(m) == P2(shift) && LogExponent(x) == x.exponent + shift;
    TwoNat(shift);
    TwoAdd(x.exponent, shift);
    RMulAssoc(m as real, Two(x.exponent), Two(shift));
  }

  /** How far the mantissa is from one, relative to their sum. */
  function AtanhArgument(significand: nat): real
    requires 0 < significand
  {
    var unit := SignificandUnit(significand);
    Abs(significand as real - unit as real) / (significand + unit) as real
  }

  /** The mantissa's logarithm from the atanh of `AtanhArgument`, which has lost the sign. */
  function MantissaLog(significand: nat, t: real): real
    requires 0 < significand
  {
    if significand < SignificandUnit(significand) then -2.0 * t else 2.0 * t
  }

  lemma {:induction false} ArgumentTruncated(significand: nat, unit: nat, gap: nat, precision: nat, argument: nat, square: nat)
    requires 0 < significand && unit == SignificandUnit(significand)
    requires gap == (if significand < unit then unit - significand else significand - unit)
    requires argument == gap * P2(precision) / (significand + unit) && square == argument * argument / P2(precision)
    ensures SmallArgument(argument, square, P2(precision), AtanhArgument(significand))
  {
    hide *;
    var z := GapShare(significand, unit, gap);
    ShareTruncated(gap, P2(precision), significand + unit, argument, z);
    SmallIs(argument, square, P2(precision), z);
  }

  lemma {:induction false} ShareTruncated(gap: nat, one: nat, sum: nat, argument: nat, z: real)
    requires 0 < one && 0 < sum && 5 * gap <= sum && z * sum as real == gap as real && argument == gap * one / sum
    ensures 0.0 <= z <= 0.2 && argument as real <= Times(z, one as real) < argument as real + 1.0
  {
    MulMono(0, gap, one);
    FloorReal(gap * one, sum, argument);
    RealMul(gap, one);
    ArgumentBetween(z, gap as real, sum as real, one as real, argument as real, (gap * one) as real);
  }

  lemma {:induction false} SmallIs(argument: nat, square: nat, unit: nat, z: real)
    requires 0 < unit && 0.0 <= z <= 0.2 && argument as real <= Times(z, unit as real) < argument as real + 1.0
    requires square == argument * argument / unit
    ensures SmallArgument(argument, square, unit, z)
  {
  }

  lemma {:induction false} GapShare(significand: nat, unit: nat, gap: nat) returns (z: real)
    requires 0 < significand && unit == SignificandUnit(significand)
    requires gap == if significand < unit then unit - significand else significand - unit
    ensures z == AtanhArgument(significand) && z * (significand + unit) as real == gap as real && 5 * gap <= significand + unit
  {
    hide *;
    MantissaRange(Parts(false, significand, 0));
    FifthOf(significand, unit, gap);
    z := ShareIs(significand, unit, gap);
  }

  lemma {:induction false} FifthOf(significand: nat, unit: nat, gap: nat)
    requires 3 * unit <= 4 * significand && 2 * significand < 3 * unit
    requires gap == if significand < unit then unit - significand else significand - unit
    ensures 5 * gap <= significand + unit
  {
  }

  lemma {:induction false} ShareIs(significand: nat, unit: nat, gap: nat) returns (z: real)
    requires 0 < significand && unit == SignificandUnit(significand)
    requires gap == if significand < unit then unit - significand else significand - unit
    ensures z == AtanhArgument(significand) && z * (significand + unit) as real == gap as real
  {
    hide SignificandUnit;
    z := AtanhArgument(significand);
    DivideBack(gap as real, (significand + unit) as real);
  }

  lemma {:induction false} ArgumentBetween(z: real, gap: real, sum: real, u: real, a: real, n: real)
    requires 0.0 < sum && 0.0 < u && z * sum == gap && 0.0 <= 5.0 * gap <= sum && n == gap * u
    requires Times(a, sum) <= n < Times(a, sum) + sum
    ensures 0.0 <= z <= 0.2 && a <= Times(z, u) < a + 1.0
  {
    ScaledOrder(0.0, gap, 0.0, z, sum);
    ScaledOrder(gap, 0.2 * sum, z, 0.2, sum);
    RMulAssoc(z, u, sum);
    RMulAssoc(z, sum, u);
    assert Times(sum, Times(z, u)) == n;
    FloorBetween(Times(z, u), a, sum, n);
  }

  datatype SignedFixed = SignedFixed(magnitude: nat, negative: bool)

  function SignedValue(v: SignedFixed): int
  {
    if v.negative then -(v.magnitude as int) else v.magnitude
  }

  /** Sign and magnitude addition. */
  function AddSigned(lhs: SignedFixed, rhs: SignedFixed): (r: SignedFixed)
    ensures SignedValue(r) == SignedValue(lhs) + SignedValue(rhs) && r.magnitude <= lhs.magnitude + rhs.magnitude
  {
    if lhs.negative == rhs.negative then SignedFixed(lhs.magnitude + rhs.magnitude, lhs.negative)
    else if lhs.magnitude >= rhs.magnitude then SignedFixed(lhs.magnitude - rhs.magnitude, lhs.negative)
    else SignedFixed(rhs.magnitude - lhs.magnitude, rhs.negative)
  }

  /** A mantissa's logarithm, off by at most `error` units. */
  ghost predicate MantissaNear(significand: nat, precision: nat, v: SignedFixed, error: nat)
    requires 0 < significand
  {
    && v.negative == (significand < SignificandUnit(significand))
    && forall t: real :: IsAtanh(AtanhArgument(significand), t) ==>
         Abs(Times(P2(precision) as real, 2.0 * t) - v.magnitude as real) <= error as real
  }

  /** Brings the mantissa near one, where the series is short, and sums it. */
  method LogOfMantissa(x: Parts, precision: nat) returns (v: SignedFixed, error: nat, exponent: int)
    requires 0 < x.significand
    ensures exponent == LogExponent(x) && MantissaNear(x.significand, precision, v, error)
    ensures error <= 16 + 8 * precision && v.magnitude <= P2(precision)
  {
    hide P2, Pow, BitLength, SmallArgument, ComputedPower, ComputedSum, MantissaNear;
    BitLengthBounds(x.significand);
    var width := BitLength(x.significand);
    var unit := P2(width - 1);
    exponent := x.exponent + width - 1;
    if x.significand + x.significand >= unit + unit + unit {
      unit := unit + unit;
      exponent := exponent + 1;
    }
    var below := x.significand < unit;
    var gap := if below then unit - x.significand else x.significand - unit;
    var one := P2(precision);
    MulMono(0, gap, one);
    DivNonnegative(gap * one, x.significand + unit);
    var argument: nat := gap * one / (x.significand + unit);
    MulMono(0, argument, argument);
    DivNonnegative(argument * argument, one);
    var square: nat := argument * argument / one;
    ghost var z := AtanhArgument(x.significand);
    ArgumentTruncated(x.significand, unit, gap, precision, argument, square);
    var total, terms := AtanhSeries(argument, square, precision, z);
    v, error := SignedFixed(total + total, below), 16 + 8 * terms;
    MantissaDone(x.significand, precision, argument, square, total, terms, v, error);
    ArgumentFacts(argument, square, one, z);
    SumSmall(argument, square, one, z, terms + 1);
  }

  method AtanhSeries(argument: nat, square: nat, precision: nat, ghost z: real) returns (total: nat, terms: nat)
    requires SmallArgument(argument, square, P2(precision), z)
    ensures terms <= precision && total == ComputedSum(argument, square, P2(precision), terms + 1)
    ensures ComputedPower(argument, square, P2(precision), terms + 1) == 0
  {
    hide P2, Pow, ComputedPower, ComputedSum, SmallArgument;
    var unit := P2(precision);
    ArgumentFacts(argument, square, unit, z);
    var power := argument;
    total, terms := argument, 0;
    SeriesStarts(argument, square, unit);
    while true
      invariant power == ComputedPower(argument, square, unit, terms)
      invariant total == ComputedSum(argument, square, unit, terms + 1)
      invariant terms <= precision && (terms > 0 ==> power > 0)
      decreases power + if terms == 0 then 1 else 0
    {
      PowerHalves(argument, square, unit, z, terms + 1);
      ComputedPowerStep(argument, square, unit, terms + 1);
      power := power * square / unit;
      if power == 0 { break; }
      TermsWithin(argument, square, precision, z, terms + 1);
      ComputedStep(argument, square, unit, terms + 1);
      DivNonnegative(power, 2 * (terms + 1) + 1);
      total := total + power / (2 * (terms + 1) + 1);
      terms := terms + 1;
    }
  }

  lemma {:induction false} SeriesStarts(argument: nat, square: nat, unit: nat)
    requires 0 < unit
    ensures ComputedPower(argument, square, unit, 0) == argument == ComputedSum(argument, square, unit, 1)
  {
    ComputedStep(argument, square, unit, 0);
    DivideByOne(argument);
  }

  lemma {:induction false} MantissaDone(significand: nat, precision: nat, argument: nat, square: nat, total: nat, terms: nat,
      v: SignedFixed, error: nat)
    requires 0 < significand && SmallArgument(argument, square, P2(precision), AtanhArgument(significand))
    requires ComputedPower(argument, square, P2(precision), terms + 1) == 0
    requires total == ComputedSum(argument, square, P2(precision), terms + 1)
    requires v == SignedFixed(total + total, significand < SignificandUnit(significand)) && error == 16 + 8 * terms
    ensures MantissaNear(significand, precision, v, error)
  {
    hide P2, Pow, SmallArgument, ComputedPower, ComputedSum, SignificandUnit, AtanhArgument, IsAtanh, Times;
    forall t: real | IsAtanh(AtanhArgument(significand), t)
      ensures Abs(Times(P2(precision) as real, 2.0 * t) - v.magnitude as real) <= error as real
    {
      AtanhNear(argument, square, P2(precision), AtanhArgument(significand), terms + 1, t);
    }
  }

  // ----- The three bases ----------------------------------------------------------------------------

  datatype LogFunction = LOG | LOG2 | LOG10

  /** The natural logarithm put together from the two parts of the number, given ln 2 and the atanh. */
  function NaturalLog(x: Parts, ln2: real, t: real): real
    requires 0 < x.significand
  {
    Times(LogExponent(x) as real, ln2) + MantissaLog(x.significand, t)
  }

  function LogBase(function_: LogFunction, ln2: real, ln10: real): real
  {
    match function_
    case LOG => 1.0
    case LOG2 => ln2
    case LOG10 => ln10
  }

  /** `q` is the logarithm of `x` to the function's base: the natural one over that of the base. */
  ghost predicate IsLogarithm(function_: LogFunction, x: Parts, q: real)
    requires 0 < x.significand
  {
    exists ln2: real, ln10: real, t: real ::
      && IsLn2(ln2) && IsLn10(ln10) && IsAtanh(AtanhArgument(x.significand), t)
      && Times(q, LogBase(function_, ln2, ln10)) == NaturalLog(x, ln2, t)
  }

  /** The series leave one logarithm at most. */
  lemma {:induction false} LogarithmUnique(function_: LogFunction, x: Parts, q: real, q': real)
    requires 0 < x.significand && IsLogarithm(function_, x, q) && IsLogarithm(function_, x, q')
    ensures q == q'
  {
    hide IsLn2, IsLn10, AtanhSum, AtanhArgument, NaturalLog, Times;
    var a: real, b: real, t: real :|
      && IsLn2(a) && IsLn10(b) && IsAtanh(AtanhArgument(x.significand), t)
      && Times(q, LogBase(function_, a, b)) == NaturalLog(x, a, t);
    var a': real, b': real, t': real :|
      && IsLn2(a') && IsLn10(b') && IsAtanh(AtanhArgument(x.significand), t')
      && Times(q', LogBase(function_, a', b')) == NaturalLog(x, a', t');
    ConstantsUnique(a, a', b, b');
    LimitUnique(AtanhSums(AtanhArgument(x.significand)), t, t');
    LogBounds(a);
    LogBounds(b);
    OneQuotient(q, q', LogBase(function_, a, b), NaturalLog(x, a, t));
  }

  lemma {:induction false} ConstantsUnique(a: real, a': real, b: real, b': real)
    requires IsLn2(a) && IsLn2(a') && IsLn10(b) && IsLn10(b')
    ensures a == a' && b == b'
  {
    hide InverseSum;
    var s: real :| IsInverse(3, false, s) && a == 2.0 * s;
    var s': real :| IsInverse(3, false, s') && a' == 2.0 * s';
    LimitUnique((m: nat) => InverseSum(3, false, m), s, s');
    var p: real, t: real :| IsInverse(3, false, p) && IsInverse(9, false, t) && b == 6.0 * p + 2.0 * t;
    var p': real, t': real :| IsInverse(3, false, p') && IsInverse(9, false, t') && b' == 6.0 * p' + 2.0 * t';
    LimitUnique((m: nat) => InverseSum(3, false, m), p, p');
    LimitUnique((m: nat) => InverseSum(9, false, m), t, t');
  }

  /** Off by at most `error` units. */
  ghost predicate SignedNear(precision: nat, v: SignedFixed, error: nat, q: real)
  {
    Abs(Times(P2(precision) as real, q) - SignedValue(v) as real) <= error as real
  }

  function Turned(negative: bool, q: real): real
  {
    if negative then -q else q
  }

  /** Seen from its own sign, the magnitude is as near. */
  lemma {:induction false} MagnitudeNear(precision: nat, v: SignedFixed, error: nat, q: real)
    requires SignedNear(precision, v, error, q)
    ensures Abs(Times(P2(precision) as real, Turned(v.negative, q)) - v.magnitude as real) <= error as real
  {
    hide P2, Pow, Times;
    TimesSum(P2(precision) as real, q, q);
  }

  lemma {:induction false} MantissaSigned(significand: nat, precision: nat, v: SignedFixed, error: nat, t: real)
    requires 0 < significand && MantissaNear(significand, precision, v, error) && IsAtanh(AtanhArgument(significand), t)
    ensures SignedNear(precision, v, error, MantissaLog(significand, t))
    ensures MantissaLog(significand, t) == Turned(v.negative, 2.0 * t)
  {
    hide P2, Pow, Times, SignificandUnit, AtanhArgument, IsAtanh;
    TimesSum(P2(precision) as real, 2.0 * t, 2.0 * t);
  }

  /** The exponent's share is off by two units for each multiple of ln 2. */
  lemma {:induction false} ExponentShare(precision: nat, l: nat, exponent: int, ln2: real, share: SignedFixed)
    requires Serves(LN2, precision, l) && IsLn2(ln2)
    requires share.magnitude == l * MagnitudeOf(exponent) && share.negative == (exponent < 0)
    ensures SignedNear(precision, share, 2 * MagnitudeOf(exponent), Times(exponent as real, ln2))
  {
    hide P2, Pow, IsLn2, Serves, Times;
    NearLn2(precision, l, ln2);
    RealMul(l, MagnitudeOf(exponent));
    ShareNear(P2(precision) as real, ln2, l as real, exponent as real, MagnitudeOf(exponent) as real,
              Times(P2(precision) as real, ln2), share.magnitude as real);
  }

  lemma {:induction false} ShareNear(u: real, ln2: real, l: real, e: real, m: real, ul: real, share: real)
    requires ul == Times(u, ln2) && Abs(ul - l) < 2.0 && 0.0 <= m && share == l * m && (e == m || e == -m)
    ensures e == m ==> Abs(Times(u, Times(e, ln2)) - share) <= 2.0 * m
    ensures e == -m ==> Abs(Times(u, Times(e, ln2)) + share) <= 2.0 * m
  {
    ScaledGap(m, ul, l);
    RMulAssoc(u, m, ln2);
    RMulAssoc(m, u, ln2);
    NegatedProducts(u, m, m, ln2);
    assert Times(u, Times(m, ln2)) == Times(m, ul);
    if e == -m { assert Times(u, Times(-m, ln2)) == -Times(m, ul); }
  }

  lemma {:induction false} SumOfNear(precision: nat, v: SignedFixed, error: nat, q: real, w: SignedFixed, error': nat, q': real)
    requires SignedNear(precision, v, error, q) && SignedNear(precision, w, error', q')
    ensures SignedNear(precision, AddSigned(v, w), error + error', q + q')
  {
    hide P2, Pow, Times;
    TimesSum(P2(precision) as real, q, q');
  }

  lemma {:induction false} Looser(precision: nat, v: SignedFixed, error: nat, more: nat, q: real)
    requires SignedNear(precision, v, error, q) && error <= more
    ensures SignedNear(precision, v, more, q)
  {
    hide P2, Pow, Times;
  }

  ghost predicate NaturalNear(x: Parts, precision: nat, v: SignedFixed, error: nat)
    requires 0 < x.significand
  {
    forall ln2: real, t: real :: IsLn2(ln2) && IsAtanh(AtanhArgument(x.significand), t) ==>
      SignedNear(precision, v, error, NaturalLog(x, ln2, t))
  }

  predicate NaturalSize(precision: nat, e: nat, magnitude: nat)
  {
    magnitude <= (e + 1) * P2(precision)
  }

  lemma {:induction false} SharedSize(precision: nat, l: nat, e: nat, magnitude: nat)
    requires 32 <= precision && Serves(LN2, precision, l) && magnitude <= P2(precision) + l * e
    ensures NaturalSize(precision, e, magnitude)
  {
    hide P2, Pow, IsNear;
    LargeUnit(precision);
    MulMono(l, P2(precision), e);
  }

  method NaturalLogOf(x: Parts, precision: nat, ln2: CachedConstant, pi: CachedConstant) returns (v: SignedFixed, error: nat)
    requires 0 < x.significand && 32 <= precision && precision + STEP <= MAX_PRECISION
    requires ln2.Valid() && ln2.constant == LN2 && pi.Valid() && pi.constant == PI
    modifies ln2, pi
    ensures ln2.Valid() && pi.Valid() && NaturalNear(x, precision, v, error)
    ensures var e := MagnitudeOf(LogExponent(x)); error <= 18 + 8 * precision + 2 * e && NaturalSize(precision, e, v.magnitude)
  {
    hide P2, Pow, Serves, MantissaNear, NaturalNear, LogExponent, AddSigned, NaturalSize;
    var mantissa, mantissaError, exponent := LogOfMantissa(x, precision);
    var scale := MagnitudeOf(exponent);
    var l := ln2.At(precision, pi);
    MulMono(0, l, scale);
    var share := SignedFixed(l * scale, exponent < 0);
    v, error := AddSigned(mantissa, share), mantissaError + (2 * scale + 2);
    NaturalDone(x, precision, mantissa, mantissaError, l, share, v, error);
    SharedSize(precision, l, scale, v.magnitude);
  }

  lemma {:induction false} NaturalDone(x: Parts, precision: nat, mantissa: SignedFixed, mantissaError: nat, l: nat, share: SignedFixed,
      v: SignedFixed, error: nat)
    requires 0 < x.significand && MantissaNear(x.significand, precision, mantissa, mantissaError) && Serves(LN2, precision, l)
    requires var e := LogExponent(x); share.magnitude == l * MagnitudeOf(e) && share.negative == (e < 0)
    requires v == AddSigned(mantissa, share) && error == mantissaError + (2 * MagnitudeOf(LogExponent(x)) + 2)
    ensures NaturalNear(x, precision, v, error)
  {
    hide P2, Pow, Serves, MantissaNear, LogExponent, IsLn2, IsAtanh, AtanhArgument, Times, SignedNear, AddSigned, MantissaLog;
    forall ln2: real, t: real | IsLn2(ln2) && IsAtanh(AtanhArgument(x.significand), t)
      ensures SignedNear(precision, v, error, NaturalLog(x, ln2, t))
    {
      var e := LogExponent(x);
      MantissaSigned(x.significand, precision, mantissa, mantissaError, t);
      ExponentShare(precision, l, e, ln2, share);
      SumOfNear(precision, mantissa, mantissaError, MantissaLog(x.significand, t), share, 2 * MagnitudeOf(e),
                Times(e as real, ln2));
      Looser(precision, v, mantissaError + 2 * MagnitudeOf(e), error, NaturalLog(x, ln2, t));
    }
  }

  /** What an approximation of a logarithm promises. */
  ghost predicate ApproximatesLog(function_: LogFunction, x: Parts, precision: nat, a: Approximation)
    requires 0 < x.significand
  {
    && a.exponent == -(precision as int)
    && forall q: real :: IsLogarithm(function_, x, q) ==>
         Abs(Times(P2(precision) as real, Turned(a.negative, q)) - a.center as real) <= a.error as real
  }

  lemma {:induction false} NaturalApproximated(x: Parts, precision: nat, v: SignedFixed, error: nat)
    requires 0 < x.significand && NaturalNear(x, precision, v, error)
    ensures ApproximatesLog(LOG, x, precision, Approximation(v.negative, v.magnitude, error, -(precision as int)))
  {
    hide P2, Pow, IsLn2, IsLn10, IsAtanh, AtanhArgument, NaturalLog, Times, SignedNear, Turned;
    forall q: real | IsLogarithm(LOG, x, q)
      ensures Abs(Times(P2(precision) as real, Turned(v.negative, q)) - v.magnitude as real) <= error as real
    {
      var ln2: real, ln10: real, t: real :|
        && IsLn2(ln2) && IsLn10(ln10) && IsAtanh(AtanhArgument(x.significand), t)
        && Times(q, LogBase(LOG, ln2, ln10)) == NaturalLog(x, ln2, t);
      NamedProducts(q, q, q, q, q, q);
      MagnitudeNear(precision, v, error, q);
    }
  }

  /** A quotient of bounded numbers, seen from the numerator's sign. */
  lemma {:induction false} QuotientNear(v: SignedFixed, error: nat, d: Bounded, precision: nat, r: Bounded, s: real, base: real, q: real)
    requires SignedNear(precision, v, error, s) && Holds(d, Times(P2(precision) as real, base)) && Times(q, base) == s
    requires DivideBounded(Bounded(v.magnitude, error), d, precision) == Some(r)
    ensures SignedNear(precision, SignedFixed(r.value, v.negative), r.error, q)
  {
    hide P2, Pow, Times, DivideBounded, SignedNear;
    var u := P2(precision) as real;
    MagnitudeNear(precision, v, error, s);
    TurnedProduct(v.negative, u, q, base, s);
    DivideBoundedSound(Bounded(v.magnitude, error), d, precision, Times(u, Turned(v.negative, s)), Times(u, base),
                       Turned(v.negative, q));
    TurnedNear(precision, r.value, v.negative, r.error, q);
  }

  lemma {:induction false} TurnedProduct(negative: bool, u: real, q: real, base: real, s: real)
    requires Times(q, base) == s
    ensures Turned(negative, q) * Times(u, base) == Times(u, Turned(negative, s))
  {
    assert q * (u * base) == u * (q * base) by {
      RMulAssoc(q, u, base);
      RMulAssoc(u, q, base);
    }
    TimesSum(u, s, s);
    Negated(q, u * base);
  }

  lemma {:induction false} TurnedNear(precision: nat, magnitude: nat, negative: bool, error: nat, q: real)
    requires Abs(Times(P2(precision) as real, Turned(negative, q)) - magnitude as real) <= error as real
    ensures SignedNear(precision, SignedFixed(magnitude, negative), error, q)
  {
    hide P2, Pow, Times;
    TimesSum(P2(precision) as real, q, q);
  }

  lemma {:induction false} DecimalApproximated(x: Parts, precision: nat, v: SignedFixed, error: nat, l10: nat, r: Bounded)
    requires 0 < x.significand && NaturalNear(x, precision, v, error) && Serves(LN10, precision, l10)
    requires DivideBounded(Bounded(v.magnitude, error), Bounded(l10, 2), precision) == Some(r)
    ensures ApproximatesLog(LOG10, x, precision, Approximation(v.negative, r.value, r.error, -(precision as int)))
  {
    hide P2, Pow, IsLn2, IsLn10, IsAtanh, AtanhArgument, NaturalLog, Times, SignedNear, Turned, DivideBounded;
    forall q: real | IsLogarithm(LOG10, x, q)
      ensures Abs(Times(P2(precision) as real, Turned(v.negative, q)) - r.value as real) <= r.error as real
    {
      var ln2: real, ln10: real, t: real :|
        && IsLn2(ln2) && IsLn10(ln10) && IsAtanh(AtanhArgument(x.significand), t)
        && Times(q, LogBase(LOG10, ln2, ln10)) == NaturalLog(x, ln2, t);
      assert Denotes(LN10, ln10);
      QuotientNear(v, error, Bounded(l10, 2), precision, r, NaturalLog(x, ln2, t), ln10, q);
      MagnitudeNear(precision, SignedFixed(r.value, v.negative), r.error, q);
    }
  }

  lemma {:induction false} BinaryApproximated(x: Parts, precision: nat, mantissa: SignedFixed, error: nat, l: nat, r: Bounded,
      whole: SignedFixed, v: SignedFixed)
    requires 0 < x.significand && MantissaNear(x.significand, precision, mantissa, error) && Serves(LN2, precision, l)
    requires DivideBounded(Bounded(mantissa.magnitude, error), Bounded(l, 2), precision) == Some(r)
    requires var e := LogExponent(x); whole.magnitude == MagnitudeOf(e) * P2(precision) && whole.negative == (e < 0)
    requires v == AddSigned(whole, SignedFixed(r.value, mantissa.negative))
    ensures ApproximatesLog(LOG2, x, precision, Approximation(v.negative, v.magnitude, r.error, -(precision as int)))
  {
    hide P2, Pow, IsLn2, IsLn10, IsAtanh, AtanhArgument, MantissaLog, MantissaNear, Times, SignedNear, Turned, DivideBounded,
         LogExponent, AddSigned;
    forall q: real | IsLogarithm(LOG2, x, q)
      ensures Abs(Times(P2(precision) as real, Turned(v.negative, q)) - v.magnitude as real) <= r.error as real
    {
      var ln2: real, ln10: real, t: real :|
        && IsLn2(ln2) && IsLn10(ln10) && IsAtanh(AtanhArgument(x.significand), t)
        && Times(q, LogBase(LOG2, ln2, ln10)) == NaturalLog(x, ln2, t);
      var e := LogExponent(x) as real;
      MantissaSigned(x.significand, precision, mantissa, error, t);
      NearLn2(precision, l, ln2);
      RDistributeTimes(q, e, ln2);
      QuotientNear(mantissa, error, Bounded(l, 2), precision, r, MantissaLog(x.significand, t), ln2, q - e);
      WholeNear(precision, LogExponent(x), whole);
      SumOfNear(precision, whole, 0, e, SignedFixed(r.value, mantissa.negative), r.error, q - e);
      MagnitudeNear(precision, v, r.error, q);
    }
  }

  lemma {:induction false} RDistributeTimes(a: real, b: real, c: real)
    ensures Times(a - b, c) == Times(a, c) - Times(b, c)
  {
    RDistribute(a, b, c);
  }

  lemma {:induction false} WholeNear(precision: nat, e: int, whole: SignedFixed)
    requires whole.magnitude == MagnitudeOf(e) * P2(precision) && whole.negative == (e < 0)
    ensures SignedNear(precision, whole, 0, e as real)
  {
    hide P2, Pow;
    RealMul(MagnitudeOf(e), P2(precision));
    var u, m := P2(precision) as real, MagnitudeOf(e) as real;
    NegatedProducts(u, m, m, u);
  }

  /** The errors allowed grow no faster than the precision and the exponent. */
  function LogErrorLimit(precision: nat, e: nat): nat
  {
    176 + 32 * precision + 72 * e
  }

  lemma {:induction false} RoomForErrors(precision: nat)
    requires 32 <= precision
    ensures 20 + 8 * precision <= P2(precision) && 16 <= P2(precision)
  {
    hide P2, Pow;
    if precision == 32 {
      LargeUnit(32);
    } else {
      RoomForErrors(precision - 1);
      P2Step(precision - 1);
    }
  }

  /** ln 2 is never too small to divide by. */
  lemma {:induction false} BinaryQuotient(precision: nat, l: nat, magnitude: nat, error: nat, e: nat)
    requires 32 <= precision && Serves(LN2, precision, l) && magnitude <= P2(precision) && error <= 16 + 8 * precision
    ensures DivideBounded(Bounded(magnitude, error), Bounded(l, 2), precision).Some?
    ensures DivideBounded(Bounded(magnitude, error), Bounded(l, 2), precision).value.error <= LogErrorLimit(precision, e)
  {
    hide P2, Pow, IsNear, DivideBounded;
    RoomForErrors(precision);
    DivideBoundedTight(Bounded(magnitude, error), Bounded(l, 2), precision, 2);
  }

  /** Nor is ln 10. */
  lemma {:induction false} DecimalQuotient(precision: nat, l: nat, magnitude: nat, error: nat, e: nat)
    requires 32 <= precision && Serves(LN10, precision, l)
    requires NaturalSize(precision, e, magnitude) && error <= 18 + 8 * precision + 2 * e
    ensures DivideBounded(Bounded(magnitude, error), Bounded(l, 2), precision).Some?
    ensures DivideBounded(Bounded(magnitude, error), Bounded(l, 2), precision).value.error <= LogErrorLimit(precision, e)
  {
    hide P2, Pow, IsNear, DivideBounded;
    RoomForErrors(precision);
    MulMono(2, P2(precision), e);
    SizeSum(P2(precision), e);
    DivideBoundedTight(Bounded(magnitude, error), Bounded(l, 2), precision, 2 * e + 3);
  }

  lemma {:induction false} SizeSum(unit: nat, e: nat)
    ensures (2 * e + 3) * unit == (e + 1) * unit + unit * e + 2 * unit
  {
  }

  /** The quotients always exist, and their errors stay small. */
  method ApproximateLog(function_: LogFunction, x: Parts, precision: nat, ln2: CachedConstant, ln10: CachedConstant,
      pi: CachedConstant) returns (a: Option<Approximation>)
    requires 0 < x.significand && 32 <= precision && precision + STEP <= MAX_PRECISION
    requires ln2.Valid() && ln2.constant == LN2 && ln10.Valid() && ln10.constant == LN10 && pi.Valid() && pi.constant == PI
    modifies ln2, ln10, pi
    ensures ln2.Valid() && ln10.Valid() && pi.Valid()
    ensures a.Some? && ApproximatesLog(function_, x, precision, a.value)
    ensures a.value.error <= LogErrorLimit(precision, MagnitudeOf(LogExponent(x)))
  {
    hide P2, Pow, Serves, MantissaNear, NaturalNear, NaturalSize, LogExponent, ApproximatesLog, DivideBounded, AddSigned;
    var exponent := -(precision as int);
    if function_ == LOG2 {
      var mantissa, error, e := LogOfMantissa(x, precision);
      var l := ln2.At(precision, pi);
      BinaryQuotient(precision, l, mantissa.magnitude, error, MagnitudeOf(e));
      var scaled := DivideBounded(Bounded(mantissa.magnitude, error), Bounded(l, 2), precision);
      if scaled == None { return None; }
      MulMono(0, MagnitudeOf(e), P2(precision));
      var whole := SignedFixed(MagnitudeOf(e) * P2(precision), e < 0);
      var v := AddSigned(whole, SignedFixed(scaled.value.value, mantissa.negative));
      BinaryApproximated(x, precision, mantissa, error, l, scaled.value, whole, v);
      return Some(Approximation(v.negative, v.magnitude, scaled.value.error, exponent));
    }
    var v, error := NaturalLogOf(x, precision, ln2, pi);
    if function_ == LOG {
      NaturalApproximated(x, precision, v, error);
      return Some(Approximation(v.negative, v.magnitude, error, exponent));
    }
    var l10 := ln10.At(precision, pi);
    DecimalQuotient(precision, l10, v.magnitude, error, MagnitudeOf(LogExponent(x)));
    var scaled := DivideBounded(Bounded(v.magnitude, error), Bounded(l10, 2), precision);
    if scaled == None { return None; }
    DecimalApproximated(x, precision, v, error, l10, scaled.value);
    a := Some(Approximation(v.negative, scaled.value.value, scaled.value.error, exponent));
  }

  // ----- Deciding -----------------------------------------------------------------------------------

  /** The result is the correct rounding of the logarithm. */
  ghost predicate RoundsLog(function_: LogFunction, f: Format, x: Parts, bits: nat)
    requires 0 < x.significand
  {
    forall q: real :: IsLogarithm(function_, x, q) ==> CorrectlyRounded(f, q < 0.0, Abs(q), bits)
  }

  lemma {:induction false} LogDecided(function_: LogFunction, f: Format, x: Parts, precision: nat, a: Approximation, bits: nat)
    requires 0 < x.significand && ApproximatesLog(function_, x, precision, a) && DecideOn(a, f) == Some(bits)
    ensures RoundsLog(function_, f, x, bits)
  {
    hide P2, Pow, IsLogarithm, Times, CorrectlyRounded, DecideOn, Two;
    forall q: real | IsLogarithm(function_, x, q)
      ensures CorrectlyRounded(f, q < 0.0, Abs(q), bits)
    {
      var p := Turned(a.negative, q);
      Decided(a, f, bits, Times(P2(precision) as real, p));
      UnitsCancel(p, precision, 0);
      ZeroScale(p);
      PositiveFactor(P2(precision) as real, p);
    }
  }

  ghost predicate UndecidedLog(function_: LogFunction, f: Format, x: Parts, precision: nat)
    requires 0 < x.significand
  {
    exists a: Approximation ::
      && ApproximatesLog(function_, x, precision, a) && a.error <= LogErrorLimit(precision, MagnitudeOf(LogExponent(x)))
      && DecideOn(a, f) == None
  }

  /** The loop over working precisions, for the logarithms of positive numbers. */
  method EvaluateLog(function_: LogFunction, x: Parts, f: Format, limit: nat, ln2: CachedConstant, ln10: CachedConstant,
      pi: CachedConstant) returns (r: Option<nat>)
    requires 0 < x.significand && limit + STEP <= MAX_PRECISION
    requires ln2.Valid() && ln2.constant == LN2 && ln10.Valid() && ln10.constant == LN10 && pi.Valid() && pi.constant == PI
    modifies ln2, ln10, pi
    ensures ln2.Valid() && ln10.Valid() && pi.Valid()
    ensures r.Some? ==> RoundsLog(function_, f, x, r.value)
    ensures r.None? ==> forall k: nat :: WorkingPrecision(f, k) <= limit ==> UndecidedLog(function_, f, x, WorkingPrecision(f, k))
  {
    hide P2, Pow, Serves, ApproximatesLog, RoundsLog, DecideOn, WorkingPrecision, LogExponent, LogErrorLimit;
    var precision := Precision(f) + 64;
    FirstPrecision(f);
    ghost var attempt: nat := 0;
    while precision <= limit
      invariant ln2.Valid() && ln10.Valid() && pi.Valid() && precision == WorkingPrecision(f, attempt)
      invariant forall k: nat :: k < attempt ==> UndecidedLog(function_, f, x, WorkingPrecision(f, k))
      decreases limit - precision
    {
      var a := ApproximateLog(function_, x, precision, ln2, ln10, pi);
      if a.Some? {
        var value := DecideOn(a.value, f);
        if value.Some? {
          LogDecided(function_, f, x, precision, a.value, value.value);
          return value;
        }
      }
      NextPrecision(f, attempt);
      precision, attempt := precision * 2, attempt + 1;
    }
    forall k: nat | WorkingPrecision(f, k) <= limit
      ensures k < attempt
    {
      if attempt <= k { LaterPrecisions(f, attempt, k); }
    }
    return None;
  }
}
