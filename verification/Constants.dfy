/** ln 2, ln 10, pi and 2/pi in fixed point, and the cache that serves them at any precision. */
module Constants {
  import opened Powers
  import opened Limits
  import opened InverseSeries

  datatype Constant = LN2 | LN10 | PI | TWO_OVER_PI

  // ----- The numbers meant --------------------------------------------------------------------------

  /** `ln 2 = 2 atanh(1/3)`. */
  ghost predicate IsLn2(x: real)
  {
    exists a: real :: IsInverse(3, false, a) && x == 2.0 * a
  }

  /** `ln 10 = 3 ln 2 + 2 atanh(1/9)`. */
  ghost predicate IsLn10(x: real)
  {
    exists a: real, b: real :: IsInverse(3, false, a) && IsInverse(9, false, b) && x == 6.0 * a + 2.0 * b
  }

  /** Four times Machin's quarter of pi, `4 atan(1/5) - atan(1/239)`. */
  ghost predicate IsPi(x: real)
  {
    exists a: real, b: real :: IsInverse(5, true, a) && IsInverse(239, true, b) && x == 16.0 * a - 4.0 * b
  }

  ghost predicate IsTwoOverPi(x: real)
  {
    exists pi: real :: IsPi(pi) && x * pi == 2.0
  }

  ghost predicate Denotes(c: Constant, x: real)
  {
    match c
    case LN2 => IsLn2(x)
    case LN10 => IsLn10(x)
    case PI => IsPi(x)
    case TWO_OVER_PI => IsTwoOverPi(x)
  }

  /** Off by less than two units of the last place. */
  ghost predicate IsNear(c: Constant, precision: nat, value: nat)
  {
    forall x: real :: Denotes(c, x) ==> Abs(Times(P2(precision) as real, x) - value as real) < 2.0
  }

  // ----- Bounds on the series -----------------------------------------------------------------------

  /** The limit is as near to the computed value as the partial sums are. */
  lemma {:induction false} ApproximatesLimit(n: nat, alternating: bool, unit: nat, value: nat, terms: nat, a: real)
    requires 1 < n && 0 < unit && terms + 1 < GUARD && Approximates(n, alternating, unit, value, terms)
    requires IsInverse(n, alternating, a)
    ensures Abs(Times(unit as real, a) - value as real) < 2.0
  {
    hide InverseSum, Times;
    var error, u, v := 1.0 + (terms + 1) as real / GUARD as real, unit as real, value as real;
    var s := (m: nat) => InverseSum(n, alternating, m);
    forall m: nat | terms + 1 <= m
      ensures Abs(v / u - s(m)) <= error / u
    {
      ScaleDown(u, s(m), v, error);
    }
    LimitWithin(s, a, v / u, error / u, terms + 1);
    ScaleUp(u, a, v, error);
  }

  lemma {:induction false} ScaleDown(unit: real, s: real, value: real, error: real)
    requires 0.0 < unit && Abs(Times(unit, s) - value) <= error
    ensures Abs(value / unit - s) <= error / unit
  {
    var v, e := value / unit, error / unit;
    assert v * unit == value && e * unit == error;
    AbsScale(v - s, unit);
    ScaledOrder(Abs(v - s) * unit, error, Abs(v - s), e, unit);
  }

  lemma {:induction false} ScaleUp(unit: real, s: real, value: real, error: real)
    requires 0.0 < unit && Abs(value / unit - s) <= error / unit
    ensures Abs(Times(unit, s) - value) <= error
  {
    var v, e := value / unit, error / unit;
    assert v * unit == value && e * unit == error;
    AbsScale(v - s, unit);
    ScaledOrder(Abs(v - s) * unit, error, Abs(v - s), e, unit);
  }

  /** Sums stay within twice the next term of the first few. */
  lemma {:induction false} InverseBounds(n: nat, alternating: bool, k: nat, a: real)
    requires 1 < n && IsInverse(n, alternating, a)
    ensures Abs(InverseSum(n, alternating, k) - a) <= 2.0 * InverseTerm(n, k)
  {
    hide InverseSum, InverseTerm;
    var s := (m: nat) => InverseSum(n, alternating, m);
    forall m: nat | k <= m
      ensures Abs(InverseSum(n, alternating, k) - s(m)) <= 2.0 * InverseTerm(n, k)
    {
      TailBound(n, alternating, k, m);
    }
    LimitWithin(s, a, InverseSum(n, alternating, k), 2.0 * InverseTerm(n, k), k);
  }

  lemma {:induction false} SmallDenominators()
    ensures Denominator(5, 0) == 5 && Denominator(5, 1) == 375 && Denominator(5, 2) == 15_625
    ensures Denominator(239, 0) == 239 && Denominator(239, 1) == 40_955_757
    ensures Denominator(3, 0) == 3 && Denominator(3, 1) == 81 && Denominator(9, 0) == 9 && Denominator(9, 1) == 2187
  {
    Odds(3);
    Odds(5);
    Odds(9);
    Odds(239);
  }

  lemma {:induction false} Odds(n: nat)
    requires 0 < n
    ensures Denominator(n, 0) == n && Denominator(n, 1) == 3 * (n * n * n) && Denominator(n, 2) == 5 * (n * n * n * n * n)
  {
    assert Pow(n, 0) == 1 && Pow(n, 1) == n && Pow(n, 2) == n * n && Pow(n, 3) == n * n * n;
    assert Pow(n, 4) == n * Pow(n, 3) && Pow(n, 5) == n * Pow(n, 4);
  }

  lemma {:induction false} PiBounds(x: real)
    requires IsPi(x)
    ensures 3.13 < x < 3.15
  {
    hide Denominator;
    var a: real, b: real :| IsInverse(5, true, a) && IsInverse(239, true, b) && x == 16.0 * a - 4.0 * b;
    InverseBounds(5, true, 2, a);
    InverseBounds(239, true, 1, b);
    SmallDenominators();
    SumSteps(5, 0, true, 0);
    SumSteps(5, 0, true, 1);
    SumSteps(239, 0, true, 0);
  }

  lemma {:induction false} LogBounds(x: real)
    ensures IsLn2(x) ==> 0.0 < x < 2.0
    ensures IsLn10(x) ==> 2.0 < x
  {
    hide Denominator;
    SmallDenominators();
    SumSteps(3, 0, false, 0);
    SumSteps(9, 0, false, 0);
    if IsLn2(x) {
      var a: real :| IsInverse(3, false, a) && x == 2.0 * a;
      InverseBounds(3, false, 1, a);
    }
    if IsLn10(x) {
      var a: real, b: real :| IsInverse(3, false, a) && IsInverse(9, false, b) && x == 6.0 * a + 2.0 * b;
      InverseBounds(3, false, 1, a);
      InverseBounds(9, false, 1, b);
    }
  }

  lemma {:induction false} LaterDenominators()
    ensures Denominator(3, 2) == 1_215 && Denominator(3, 3) == 15_309 && Denominator(5, 3) == 546_875
    ensures Denominator(9, 2) == 295_245
  {
    Odds(3);
    Odds(9);
    assert Pow(3, 5) == 243 && Pow(3, 6) == 3 * Pow(3, 5) && Pow(3, 7) == 3 * Pow(3, 6);
    assert Pow(5, 5) == 3_125 && Pow(5, 6) == 5 * Pow(5, 5) && Pow(5, 7) == 5 * Pow(5, 6);
  }

  /** The numbers the sums approach, to three digits or more. */
  lemma {:induction false} ConstantRanges(x: real)
    ensures IsLn2(x) ==> 0.6927 < x < 0.6933
    ensures IsLn10(x) ==> 2.301 < x < 2.3031
    ensures IsPi(x) ==> 3.1415 < x < 3.1417
    ensures IsTwoOverPi(x) ==> 0.6365 < x < 0.6367
  {
    hide InverseSum, IsInverse;
    if IsLn2(x) {
      var a: real :| IsInverse(3, false, a) && x == 2.0 * a;
      ThirdRange(a);
    }
    if IsLn10(x) {
      var a: real, b: real :| IsInverse(3, false, a) && IsInverse(9, false, b) && x == 6.0 * a + 2.0 * b;
      ThirdRange(a);
      NinthRange(b);
    }
    if IsPi(x) { PiRange(x); }
    if IsTwoOverPi(x) {
      var pi: real :| IsPi(pi) && x * pi == 2.0;
      PiRange(pi);
      if x <= 0.6365 { RMulMono(x, 0.6365, pi); }
      if 0.6367 <= x { RMulMono(0.6367, x, pi); }
    }
  }

  lemma {:induction false} ThirdRange(a: real)
    requires IsInverse(3, false, a)
    ensures 0.34637 < a < 0.34664
  {
    hide Denominator;
    InverseBounds(3, false, 3, a);
    SmallDenominators();
    LaterDenominators();
    SumSteps(3, 0, false, 0);
    SumSteps(3, 0, false, 1);
    SumSteps(3, 0, false, 2);
  }

  lemma {:induction false} NinthRange(b: real)
    requires IsInverse(9, false, b)
    ensures 0.11156 < b < 0.11158
  {
    hide Denominator;
    InverseBounds(9, false, 2, b);
    SmallDenominators();
    LaterDenominators();
    SumSteps(9, 0, false, 0);
    SumSteps(9, 0, false, 1);
  }

  lemma {:induction false} PiRange(x: real)
    requires IsPi(x)
    ensures 3.1415 < x < 3.1417
  {
    hide IsInverse;
    var a: real, b: real :| IsInverse(5, true, a) && IsInverse(239, true, b) && x == 16.0 * a - 4.0 * b;
    FifthRange(a);
    LastRange(b);
  }

  lemma {:induction false} FifthRange(a: real)
    requires IsInverse(5, true, a)
    ensures 0.197393 < a < 0.197402
  {
    hide Denominator;
    InverseBounds(5, true, 3, a);
    SmallDenominators();
    LaterDenominators();
    SumSteps(5, 0, true, 0);
    SumSteps(5, 0, true, 1);
    SumSteps(5, 0, true, 2);
  }

  lemma {:induction false} LastRange(b: real)
    requires IsInverse(239, true, b)
    ensures 0.004184 < b < 0.0041842
  {
    hide Denominator;
    InverseBounds(239, true, 1, b);
    SmallDenominators();
    SumSteps(239, 0, true, 0);
  }

  // ----- Computing the constants --------------------------------------------------------------------

  /** Far beyond any precision in use; past four thousand million bits the series has more terms than
      its guard bits can absorb, and than its 32-bit counter can count. */
  const MAX_PRECISION: nat := 0x8000_0000

  method ComputeLn2(precision: nat) returns (value: nat)
    requires precision <= MAX_PRECISION
    ensures IsNear(LN2, precision, value) && Ln2Sized(precision, value)
  {
    hide P2, Pow, IsNear, Approximates;
    var series := SumOfInverses(3, precision + 4, false);
    ghost var terms: nat :| terms <= precision + 37 && Approximates(3, false, P2(precision + 4), series, terms);
    value := series / 8;
    Ln2Near(precision, series, terms, value);
    Ln2Size(precision, series, terms, value);
  }

  /** Between a half and three quarters, to a unit or two. */
  predicate Ln2Sized(precision: nat, value: nat)
  {
    4 * value <= 3 * P2(precision) + 4 && P2(precision) <= 2 * value + 4
  }

  lemma {:induction false} Ln2Size(precision: nat, series: nat, terms: nat, value: nat)
    requires terms + 1 < GUARD && value == series / 8 && Approximates(3, false, P2(precision + 4), series, terms)
    ensures Ln2Sized(precision, value)
  {
    hide P2, Pow, InverseSum, InverseTerm, Denominator, Times;
    var v := P2(precision + 4) as real;
    assert Abs(Times(v, InverseSum(3, false, terms + 1)) - series as real) <= 1.0 + (terms + 1) as real / GUARD as real;
    ThirdBounds(terms + 1);
    P2Add(precision, 4);
    Sixteen();
    var vs := TimesBetween(v, InverseSum(3, false, terms + 1), 0.3, 0.36);
    Ln2Quotient(P2(precision), series, value, v, vs);
  }

  lemma {:induction false} ThirdBounds(m: nat)
    requires 1 <= m
    ensures 0.3 <= InverseSum(3, false, m) <= 0.36
  {
    hide InverseSum, Denominator;
    TailBound(3, false, 1, m);
    SumSteps(3, 0, false, 0);
    SmallDenominators();
  }

  lemma {:induction false} Ln2Quotient(unit: nat, series: nat, value: nat, v: real, vs: real)
    requires v == 16.0 * unit as real && 0.3 * v <= vs <= 0.36 * v && Abs(vs - series as real) < 2.0
    requires value == series / 8
    ensures 4 * value <= 3 * unit + 4 && unit <= 2 * value + 4
  {
    assert 4.8 * unit as real - 2.0 < series as real < 5.76 * unit as real + 2.0;
  }

  lemma {:induction false} Ln2Near(precision: nat, series: nat, terms: nat, value: nat)
    requires terms + 1 < GUARD && value == series / 8
    requires Approximates(3, false, P2(precision + 4), series, terms)
    ensures IsNear(LN2, precision, value)
  {
    hide P2, Pow, Approximates, IsInverse, Times;
    forall x: real | Denotes(LN2, x)
      ensures Abs(Times(P2(precision) as real, x) - value as real) < 2.0
    {
      var a: real :| IsInverse(3, false, a) && x == 2.0 * a;
      ApproximatesLimit(3, false, P2(precision + 4), series, terms, a);
      P2Add(precision, 4);
      Sixteen();
      CutDown(P2(precision) as real, x, Times(P2(precision + 4) as real, a), series, 8, value) by {
        CombineLn2(P2(precision) as real, P2(precision + 4) as real, a, x);
      }
    }
  }

  lemma {:induction false} Sixteen()
    ensures P2(4) == 16 && P2(8) == 256
  {
    assert Pow(2, 4) == 16 && Pow(2, 8) == 256;
  }

  lemma {:induction false} CombineLn2(u: real, v: real, a: real, x: real)
    requires v == 16.0 * u && x == 2.0 * a
    ensures Times(v, a) == 8.0 * Times(u, x)
  {
  }

  /** Dropping bits from a number known to within the dropped unit. */
  lemma {:induction false} CutDown(u: real, x: real, exact: real, computed: nat, divisor: nat, value: nat)
    requires 0 < divisor && exact == divisor as real * Times(u, x) && value == computed / divisor
    requires Abs(exact - computed as real) < divisor as real
    ensures Abs(Times(u, x) - value as real) < 2.0
  {
    var y, d := Times(u, x), divisor as real;
    QuotientRange(computed, divisor, value);
    CutAt(y, value as real, d, exact, computed as real);
  }

  lemma {:induction false} QuotientRange(computed: nat, divisor: nat, value: nat)
    requires 0 < divisor && value == computed / divisor
    ensures Times(value as real, divisor as real) <= computed as real < Times(value as real, divisor as real) + divisor as real
  {
    RealMul(value, divisor);
    assert value * divisor <= computed < value * divisor + divisor;
  }

  lemma {:induction false} CutAt(y: real, v: real, d: real, exact: real, computed: real)
    requires 0.0 < d && exact == d * y && Times(v, d) <= computed < Times(v, d) + d && Abs(exact - computed) < d
    ensures Abs(y - v) < 2.0
  {
    var w := y - v;
    assert w * d == exact - Times(v, d);
    ScaledOrder(w * d, 2.0 * d, w, 2.0, d);
    ScaledOrder(-2.0 * d, w * d, -2.0, w, d);
  }

  method ComputeLn10(precision: nat) returns (value: nat)
    requires precision <= MAX_PRECISION
    ensures IsNear(LN10, precision, value) && Ln10Sized(precision, value)
  {
    hide P2, Pow, IsNear, Approximates;
    var ln2Half := SumOfInverses(3, precision + 4, false);
    var lnFiveQuartersHalf := SumOfInverses(9, precision + 4, false);
    ghost var terms: nat :| terms <= precision + 37 && Approximates(3, false, P2(precision + 4), ln2Half, terms);
    ghost var terms': nat :| terms' <= precision + 37
      && Approximates(9, false, P2(precision + 4), lnFiveQuartersHalf, terms');
    value := (ln2Half * 3 + lnFiveQuartersHalf) / 8;
    Ln10Near(precision, ln2Half, terms, lnFiveQuartersHalf, terms', value);
    Ln10Size(precision, ln2Half, terms, lnFiveQuartersHalf, terms', value);
  }

  /** At least two, to a few units. */
  predicate Ln10Sized(precision: nat, value: nat)
  {
    2 * P2(precision) <= value + 4
  }

  lemma {:induction false} Ln10Size(precision: nat, s: nat, terms: nat, t: nat, terms': nat, value: nat)
    requires terms + 1 < GUARD && terms' + 1 < GUARD && value == (s * 3 + t) / 8
    requires Approximates(3, false, P2(precision + 4), s, terms) && Approximates(9, false, P2(precision + 4), t, terms')
    ensures Ln10Sized(precision, value)
  {
    hide P2, Pow, InverseSum, InverseTerm, Denominator, Times;
    var v := P2(precision + 4) as real;
    assert Abs(Times(v, InverseSum(3, false, terms + 1)) - s as real) <= 1.0 + (terms + 1) as real / GUARD as real;
    assert Abs(Times(v, InverseSum(9, false, terms' + 1)) - t as real) <= 1.0 + (terms' + 1) as real / GUARD as real;
    ThirdBounds(terms + 1);
    NinthBounds(terms' + 1);
    P2Add(precision, 4);
    Sixteen();
    var vs := TimesBetween(v, InverseSum(3, false, terms + 1), 0.3, 0.36);
    var vt := TimesBetween(v, InverseSum(9, false, terms' + 1), 0.11, 0.12);
    Ln10Quotient(P2(precision), s, t, value, v, vs, vt);
  }

  lemma {:induction false} NinthBounds(m: nat)
    requires 1 <= m
    ensures 0.11 <= InverseSum(9, false, m) <= 0.12
  {
    hide InverseSum, Denominator;
    TailBound(9, false, 1, m);
    SumSteps(9, 0, false, 0);
    SmallDenominators();
  }

  lemma {:induction false} Ln10Quotient(unit: nat, s: nat, t: nat, value: nat, v: real, vs: real, vt: real)
    requires v == 16.0 * unit as real && 0.3 * v <= vs && 0.11 * v <= vt && value == (s * 3 + t) / 8
    requires Abs(vs - s as real) < 2.0 && Abs(vt - t as real) < 2.0
    ensures 2 * unit <= value + 4
  {
    assert (3 * s + t) as real > 16.0 * unit as real - 8.0;
  }

  lemma {:induction false} Ln10Near(precision: nat, s: nat, terms: nat, t: nat, terms': nat, value: nat)
    requires terms + 1 < GUARD && terms' + 1 < GUARD && value == (s * 3 + t) / 8
    requires Approximates(3, false, P2(precision + 4), s, terms)
    requires Approximates(9, false, P2(precision + 4), t, terms')
    ensures IsNear(LN10, precision, value)
  {
    hide P2, Pow, Approximates, IsInverse, Times;
    forall x: real | Denotes(LN10, x)
      ensures Abs(Times(P2(precision) as real, x) - value as real) < 2.0
    {
      var a: real, b: real :| IsInverse(3, false, a) && IsInverse(9, false, b) && x == 6.0 * a + 2.0 * b;
      var v := P2(precision + 4) as real;
      ApproximatesLimit(3, false, P2(precision + 4), s, terms, a);
      ApproximatesLimit(9, false, P2(precision + 4), t, terms', b);
      P2Add(precision, 4);
      Sixteen();
      CombineLn10(P2(precision) as real, v, a, b, x);
      CutDown(P2(precision) as real, x, 3.0 * Times(v, a) + Times(v, b), s * 3 + t, 8, value);
    }
  }

  lemma {:induction false} CombineLn10(u: real, v: real, a: real, b: real, x: real)
    requires v == 16.0 * u && x == 6.0 * a + 2.0 * b
    ensures 3.0 * Times(v, a) + Times(v, b) == 8.0 * Times(u, x)
  {
  }

  /** Between two and a little over 3.15: what the users of pi rely on besides its nearness. */
  predicate PiSized(precision: nat, value: nat)
  {
    2 * P2(precision) <= value && 20 * value <= 63 * P2(precision) + 20
  }

  lemma {:induction false} PiQuotient(n: nat, value: nat, unit: nat)
    requires value == n / 256 && 512 * unit <= n && 20 * n <= 16_128 * unit + 5_120
    ensures 2 * unit <= value && 20 * value <= 63 * unit + 20
  {
  }

  method ComputePi(precision: nat) returns (value: nat)
    requires precision <= MAX_PRECISION
    ensures IsNear(PI, precision, value) && PiSized(precision, value)
  {
    hide P2, Pow, IsNear, Approximates;
    var large := SumOfInverses(5, precision + 8, true);
    var small := SumOfInverses(239, precision + 8, true);
    ghost var terms: nat :| terms <= precision + 41 && Approximates(5, true, P2(precision + 8), large, terms);
    ghost var terms': nat :| terms' <= precision + 41
      && Approximates(239, true, P2(precision + 8), small, terms');
    LargeEnough(precision, large, terms, small, terms');
    value := (large * 16 - small * 4) / 256;
    PiQuotient(large * 16 - small * 4, value, P2(precision));
    PiNear(precision, large, terms, small, terms', value);
  }

  /** The difference Machin's formula takes does not go below zero, and is about 3.14. */
  lemma {:induction false} LargeEnough(precision: nat, large: nat, terms: nat, small: nat, terms': nat)
    requires terms + 1 < GUARD && terms' + 1 < GUARD
    requires Approximates(5, true, P2(precision + 8), large, terms)
    requires Approximates(239, true, P2(precision + 8), small, terms')
    ensures 512 * P2(precision) <= large * 16 - small * 4
    ensures 20 * (large * 16 - small * 4) <= 16_128 * P2(precision) + 5_120
  {
    hide P2, Pow, InverseSum, InverseTerm, Denominator, Times;
    var v := P2(precision + 8) as real;
    assert Abs(Times(v, InverseSum(5, true, terms + 2)) - large as real) <= 1.0 + (terms + 1) as real / GUARD as real;
    assert Abs(Times(v, InverseSum(239, true, terms' + 1)) - small as real) <= 1.0 + (terms' + 1) as real / GUARD as real;
    FifthBounds(terms + 2);
    SmallBounds(terms' + 1);
    P2Add(precision, 8);
    Sixteen();
    Compare16(v, InverseSum(5, true, terms + 2), InverseSum(239, true, terms' + 1), large, small);
  }

  lemma {:induction false} FifthBounds(m: nat)
    requires 2 <= m
    ensures 0.19 <= InverseSum(5, true, m) <= 0.1975
  {
    hide InverseSum, Denominator;
    TailBound(5, true, 2, m);
    SumSteps(5, 0, true, 0);
    SumSteps(5, 0, true, 1);
    SmallDenominators();
  }

  lemma {:induction false} SmallBounds(m: nat)
    requires 1 <= m
    ensures 0.004 <= InverseSum(239, true, m) <= 0.01
  {
    hide InverseSum, Denominator;
    TailBound(239, true, 1, m);
    SumSteps(239, 0, true, 0);
    SmallDenominators();
  }

  lemma {:induction false} Compare16(v: real, s: real, t: real, large: nat, small: nat)
    requires v >= 256.0 && 0.19 <= s <= 0.1975 && 0.004 <= t <= 0.01
    requires Abs(Times(v, s) - large as real) < 2.0 && Abs(Times(v, t) - small as real) < 2.0
    ensures 2.0 * v <= 16.0 * large as real - 4.0 * small as real <= 3.144 * v + 40.0
  {
    var vs := TimesBetween(v, s, 0.19, 0.1975);
    var vt := TimesBetween(v, t, 0.004, 0.01);
    hide Times;
  }

  lemma {:induction false} TimesBetween(v: real, s: real, low: real, high: real) returns (vs: real)
    requires v >= 0.0 && low <= s <= high
    ensures vs == Times(v, s) && low * v <= vs <= high * v
  {
    vs := v * s;
    RMulMono(low, s, v);
    RMulMono(s, high, v);
  }

  lemma {:induction false} PiNear(precision: nat, large: nat, terms: nat, small: nat, terms': nat, value: nat)
    requires terms + 1 < GUARD && terms' + 1 < GUARD && small * 4 <= large * 16 && value == (large * 16 - small * 4) / 256
    requires Approximates(5, true, P2(precision + 8), large, terms)
    requires Approximates(239, true, P2(precision + 8), small, terms')
    ensures IsNear(PI, precision, value)
  {
    hide P2, Pow, Approximates, IsInverse, Times;
    forall x: real | Denotes(PI, x)
      ensures Abs(Times(P2(precision) as real, x) - value as real) < 2.0
    {
      var a: real, b: real :| IsInverse(5, true, a) && IsInverse(239, true, b) && x == 16.0 * a - 4.0 * b;
      var v := P2(precision + 8) as real;
      ApproximatesLimit(5, true, P2(precision + 8), large, terms, a);
      ApproximatesLimit(239, true, P2(precision + 8), small, terms', b);
      P2Add(precision, 8);
      Sixteen();
      CombinePi(P2(precision) as real, v, a, b, x);
      CutDown(P2(precision) as real, x, 16.0 * Times(v, a) - 4.0 * Times(v, b), large * 16 - small * 4, 256, value);
    }
  }

  lemma {:induction false} CombinePi(u: real, v: real, a: real, b: real, x: real)
    requires v == 256.0 * u && x == 16.0 * a - 4.0 * b
    ensures 16.0 * Times(v, a) - 4.0 * Times(v, b) == 256.0 * Times(u, x)
  {
  }

  /** The inverse of a number known to within two units at sixteen more bits. */
  lemma {:induction false} TwoOverPiNear(precision: nat, pi: nat, value: nat)
    requires IsNear(PI, precision + 16, pi) && 0 < pi && value == P2(precision + 1 + (precision + 16)) / pi
    ensures IsNear(TWO_OVER_PI, precision, value)
  {
    hide P2, Pow, Times, IsPi;
    forall x: real | Denotes(TWO_OVER_PI, x)
      ensures Abs(Times(P2(precision) as real, x) - value as real) < 2.0
    {
      var circle: real :| IsPi(circle) && x * circle == 2.0;
      PiBounds(circle);
      assert Denotes(PI, circle);
      P2Add(precision, 16);
      P2Add(precision + 1, precision + 16);
      P2Step(precision);
      var numerator := P2(precision + 1 + (precision + 16));
      SmallPower16();
      RealMul(P2(precision + 1), P2(precision + 16));
      QuotientRange(numerator, pi, value);
      InverseNear(P2(precision) as real, P2(precision + 16) as real, circle, x, pi as real, numerator as real, value as real);
    }
  }

  lemma {:induction false} SmallPower16()
    ensures P2(16) == 0x1_0000
  {
    Sixteen();
    hide P2, Pow;
    P2Add(8, 8);
  }

  lemma {:induction false} InverseNear(u: real, w: real, circle: real, x: real, pi: real, numerator: real, value: real)
    requires 1.0 <= u && w == 65_536.0 * u && 3.0 < circle && x * circle == 2.0
    requires Abs(Times(w, circle) - pi) < 2.0 && 0.0 < pi && numerator == (2.0 * u) * w
    requires Times(value, pi) <= numerator < Times(value, pi) + pi
    ensures Abs(Times(u, x) - value) < 2.0
  {
    var y, p := Times(u, x), Times(w, circle);
    InverseProduct(u, w, circle, x);
    RMulStrict(3.0, circle, w);
    assert 0.0 < x <= 1.0 by {
      if x <= 0.0 { RMulMono(x, 0.0, circle); }
      if x > 1.0 { RMulStrict(1.0, x, circle); }
    }
    assert 0.0 < y <= u by {
      RMulMono(x, 1.0, u);
      RMulStrict(0.0, x, u);
    }
    NearQuotient(y, value, p, pi, u, numerator);
  }

  lemma {:induction false} InverseProduct(u: real, w: real, circle: real, x: real)
    requires x * circle == 2.0
    ensures Times(Times(u, x), Times(w, circle)) == (2.0 * u) * w
  {
    RMulSwap(u, x, w, circle);
    assert (u * x) * (w * circle) == (u * w) * (x * circle);
  }

  lemma {:induction false} NearQuotient(y: real, v: real, p: real, q: real, u: real, n: real)
    requires 0.0 < y <= u && Times(y, p) == n && Times(v, q) <= n < Times(v, q) + q && 0.0 < q
    requires Abs(p - q) < 2.0 && 1.0 <= u && q > 2.0 * u
    ensures Abs(y - v) < 2.0
  {
    var w := y - v;
    var d := p - q;
    QuotientGap(y, v, p, q, n);
    SmallProduct(y, d, u);
    ScaledOrder(w * q, 2.0 * q, w, 2.0, q);
    ScaledOrder(-2.0 * q, w * q, -2.0, w, q);
  }

  lemma {:induction false} QuotientGap(y: real, v: real, p: real, q: real, n: real)
    requires Times(y, p) == n
    ensures (y - v) * q == n - Times(v, q) - Times(y, p - q)
  {
  }

  lemma {:induction false} SmallProduct(y: real, d: real, u: real)
    requires 0.0 < y <= u && -2.0 < d < 2.0
    ensures -2.0 * u < Times(y, d) < 2.0 * u
  {
    RMulStrict(d, 2.0, y);
    RMulStrict(-2.0, d, y);
  }

  // ----- The cache ----------------------------------------------------------------------------------

  const STEP := 1_024

  /** What `At` promises of a value: off by less than two units, and for pi and the logarithms of about
      the right size. */
  ghost predicate Serves(c: Constant, precision: nat, value: nat)
  {
    && IsNear(c, precision, value)
    && (c == PI ==> PiSized(precision, value))
    && (c == LN2 ==> Ln2Sized(precision, value))
    && (c == LN10 ==> Ln10Sized(precision, value))
  }

  /** Cutting a value down to a lower precision leaves it within two units. */
  lemma {:induction false} ServesLower(c: Constant, from: nat, value: nat, precision: nat)
    requires Serves(c, from, value) && precision <= from
    ensures 0 <= value / P2(from - precision) && Serves(c, precision, value / P2(from - precision))
  {
    hide P2, Pow, IsNear;
    var d := P2(from - precision);
    P2Add(precision, from - precision);
    P2Zero();
    if precision < from {
      P2Step(0);
      P2Mono(1, from - precision);
      NearLower(c, from, value, precision, d);
    }
    DivNonnegative(value, d);
    if c == PI { SizedLower(value, d, P2(precision)); }
    if c == LN2 { Ln2Lower(value, d, P2(precision)); }
    if c == LN10 { Ln10Lower(value, d, P2(precision)); }
  }

  lemma {:induction false} NearLower(c: Constant, from: nat, value: nat, precision: nat, d: nat)
    requires IsNear(c, from, value) && 2 <= d && P2(from) == P2(precision) * d
    ensures 0 <= value / d && IsNear(c, precision, value / d)
  {
    hide P2, Pow, Denotes, Times;
    DivNonnegative(value, d);
    RealMul(P2(precision), d);
    forall x: real | Denotes(c, x)
      ensures Abs(Times(P2(precision) as real, x) - (value / d) as real) < 2.0
    {
      TimesScaled(P2(from) as real, P2(precision) as real, d as real, x);
      CutDown(P2(precision) as real, x, Times(P2(from) as real, x), value, d, value / d);
    }
  }

  lemma {:induction false} SizedLower(value: nat, d: nat, unit: nat)
    requires 0 < d && 2 * (unit * d) <= value && 20 * value <= 63 * (unit * d) + 20
    ensures 2 * unit <= value / d && 20 * (value / d) <= 63 * unit + 20
  {
    DivBelow(value, d, 2 * unit);
    MulAssoc(2, unit, d);
    var q := value / d;
    assert q * d <= value;
    MulAssoc(20, q, d);
    MulAssoc(63, unit, d);
    MulMono(1, d, 20);
    assert (20 * q) * d <= (63 * unit + 20) * d by {
      assert (63 * unit + 20) * d == (63 * unit) * d + 20 * d;
    }
    MulCancel(20 * q, 63 * unit + 20, d);
  }

  lemma {:induction false} Ln2Lower(value: nat, d: nat, unit: nat)
    requires 0 < d && 4 * value <= 3 * (unit * d) + 4 && unit * d <= 2 * value + 4
    ensures 4 * (value / d) <= 3 * unit + 4 && unit <= 2 * (value / d) + 4
  {
    if d == 1 {
      assert value / 1 == value && unit * 1 == unit;
    } else {
      Ln2Cut(value, d, unit, value / d, unit * d, value / d * d);
    }
  }

  lemma {:induction false} Ln10Lower(value: nat, d: nat, unit: nat)
    requires 0 < d && 2 * (unit * d) <= value + 4
    ensures 2 * unit <= value / d + 4
  {
    MulAssoc(2, unit, d);
    DivBelow(value, d, 2 * unit - 4);
    assert (2 * unit - 4) * d == 2 * unit * d - 4 * d;
  }

  lemma {:induction false} Ln2Cut(value: nat, d: nat, unit: nat, q: int, ud: nat, qd: int)
    requires 2 <= d && ud == unit * d && qd == q * d && qd <= value < qd + d
    requires 4 * value <= 3 * ud + 4 && ud <= 2 * value + 4
    ensures 4 * q <= 3 * unit + 4 && unit <= 2 * q + 4
  {
    assert (4 * q) * d == 4 * qd && (3 * unit + 4) * d == 3 * ud + 4 * d && (2 * q + 4) * d == 2 * qd + 4 * d;
    MulCancel(4 * q, 3 * unit + 4, d);
    MulCancel(unit, 2 * q + 4, d);
  }

  lemma {:induction false} TimesScaled(w: real, u: real, d: real, x: real)
    requires w == u * d
    ensures Times(w, x) == d * Times(u, x)
  {
    RMulAssoc(d, u, x);
  }

  /** One constant and the most precise value of it so far, of which every answer is a prefix. */
  class CachedConstant {
    const constant: Constant
    var precision: nat
    var value: nat

    constructor (constant: Constant)
      ensures this.constant == constant && precision == 0 && value == 0 && Valid()
    {
      this.constant := constant;
      precision, value := 0, 0;
    }

    ghost predicate Valid()
      reads this
    {
      if precision == 0 then value == 0 else Serves(constant, precision, value)
    }

    /** The precision computed is a multiple of the step and never goes down. Whatever was asked for
        before, every answer is off by less than two units, unless the first request is for none. */
    method At(requested: nat, pi: CachedConstant) returns (r: nat)
      requires Valid() && pi.Valid() && pi.constant == PI
      requires requested + (if constant == TWO_OVER_PI then 4 * STEP else STEP) <= MAX_PRECISION
      modifies this, pi
      ensures Valid() && pi.Valid()
      ensures precision == if requested > old(precision) then (requested + STEP - 1) / STEP * STEP else old(precision)
      ensures requested <= old(precision) ==> value == old(value) && (pi != this ==> unchanged(pi))
      ensures requested <= precision && r == value / P2(precision - requested)
      ensures 0 < precision ==> Serves(constant, requested, r)
      ensures precision == 0 ==> requested == 0 && r == 0
      decreases if constant == TWO_OVER_PI then 1 else 0, 1
    {
      hide P2, Pow, Serves;
      if requested > precision {
        var rounded := (requested + STEP - 1) / STEP * STEP;
        var computed := Compute(constant, rounded, pi);
        precision, value := rounded, computed;
      }
      DivNonnegative(value, P2(precision - requested));
      if 0 < precision { ServesLower(constant, precision, value, requested); } else { P2Zero(); }
      return value / P2(precision - requested);
    }

    /** The generator of each constant; that of 2/pi asks the cache for pi. */
    static method Compute(constant: Constant, precision: nat, pi: CachedConstant) returns (value: nat)
      requires precision + (if constant == TWO_OVER_PI then 2 * STEP else 0) <= MAX_PRECISION
      requires pi.Valid() && pi.constant == PI
      modifies pi
      ensures pi.Valid() && Serves(constant, precision, value) && (constant != TWO_OVER_PI ==> unchanged(pi))
      decreases if constant == TWO_OVER_PI then 1 else 0, 0
    {
      hide P2, Pow, IsNear;
      match constant {
        case LN2 => value := ComputeLn2(precision);
        case LN10 => value := ComputeLn10(precision);
        case PI => value := ComputePi(precision);
        case TWO_OVER_PI =>
          var piPrecision := precision + 16;
          var circle := pi.At(piPrecision, pi);
          assert 0 < circle;
          DivNonnegative(P2(precision + 1 + piPrecision), circle);
          value := P2(precision + 1 + piPrecision) / circle;
          TwoOverPiNear(precision, circle, value);
      }
    }
  }

  /** A fresh cache asked for no bits answers zero: within two units of ln 2 and 2/pi, but not of
      ln 10 and pi. */
  lemma {:induction false} FreshAtZero(c: Constant, x: real)
    requires Denotes(c, x)
    ensures Abs(Times(P2(0) as real, x) - 0.0) < 2.0 <==> c == LN2 || c == TWO_OVER_PI
  {
    P2Zero();
    hide P2, Pow, IsLn2, IsLn10, IsPi;
    LogBounds(x);
    if c == PI { PiBounds(x); }
    if c == TWO_OVER_PI {
      var circle: real :| IsPi(circle) && x * circle == 2.0;
      PiBounds(circle);
      if x >= 2.0 { RMulMono(2.0, x, circle); }
      if x <= 0.0 { RMulMono(x, 0.0, circle); }
    }
  }

  /** Every answer to a run of requests, whatever their order, is off by less than two units. */
  method Replay(constant: Constant, requests: seq<nat>) returns (answers: seq<nat>)
    requires forall i :: 0 <= i < |requests| ==> 0 < requests[i] <= MAX_PRECISION - 4 * STEP
    ensures |answers| == |requests|
    ensures forall i :: 0 <= i < |requests| ==> IsNear(constant, requests[i], answers[i])
  {
    hide P2, Pow, IsNear;
    var cache := new CachedConstant(constant);
    var pi := new CachedConstant(PI);
    answers := [];
    for k := 0 to |requests|
      invariant cache.Valid() && pi.Valid() && fresh(cache) && fresh(pi)
      invariant cache.constant == constant && pi.constant == PI && |answers| == k
      invariant forall i :: 0 <= i < k ==> IsNear(constant, requests[i], answers[i])
    {
      var answer := cache.At(requests[k], pi);
      answers := answers + [answer];
    }
  }
}
