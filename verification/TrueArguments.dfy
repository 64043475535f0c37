/** The series at arguments known only to within some units: the error budgets cover both the
    truncations and the argument's own error. */
module TrueArguments {
  import opened Powers
  import opened Series

  /** Two angles at most eight units apart, the computed one in [0, 8/5], with their squares. */
  ghost predicate NearAngles(unit: nat, angle: nat, exact: real, x: real, y: real)
  {
    && 1024 <= unit && 5 * angle <= 8 * unit && Abs(exact - angle as real) <= 8.0
    && x == Times(exact / unit as real, exact / unit as real)
    && y == Times(angle as real / unit as real, angle as real / unit as real)
  }

  lemma {:induction false} NearSquares(unit: nat, angle: nat, exact: real, x: real, y: real)
    requires NearAngles(unit, angle, exact, x, y)
    ensures 0.0 <= x <= 2.6 && 0.0 <= y <= 2.56 && Times(Abs(x - y), unit as real) <= 25.76
  {
    var u := unit as real;
    var t, a := exact / u, angle as real / u;
    DivideBack(exact, u);
    DivideBack(angle as real, u);
    ScaledOrder(exact, 1.61 * u, t, 1.61, u);
    ScaledOrder(-0.01 * u, exact, -0.01, t, u);
    ScaledOrder(angle as real, 1.6 * u, a, 1.6, u);
    ScaledOrder(0.0, angle as real, 0.0, a, u);
    SquareBounds(t, 1.61, 2.6);
    SquareBounds(a, 1.6, 2.56);
    SquareGap(t, a, u, x, y);
  }

  lemma {:induction false} SquareBounds(t: real, limit: real, bound: real)
    requires -limit <= t <= limit && limit * limit <= bound
    ensures 0.0 <= Times(t, t) <= bound
  {
    var s := Abs(t);
    assert t * t == s * s;
    RMulMono(s, limit, s);
    RMulMono(s, limit, limit);
  }

  lemma {:induction false} SquareGap(t: real, a: real, u: real, x: real, y: real)
    requires 0.0 < u && x == Times(t, t) && y == Times(a, a) && -0.01 <= t <= 1.61 && 0.0 <= a <= 1.6
    requires Abs(t * u - a * u) <= 8.0
    ensures Times(Abs(x - y), u) <= 25.76
  {
    var d, s := t - a, t + a;
    AbsProduct(d, s);
    AbsProduct(d, u);
    RDistribute(t, a, u);
    DifferenceOfSquares(t, a);
    GapProduct(Abs(d), Abs(s), u, Abs(d) * u);
  }

  lemma {:induction false} DifferenceOfSquares(t: real, a: real)
    ensures Times(t, t) - Times(a, a) == (t - a) * (t + a)
  {
  }

  lemma {:induction false} GapProduct(d: real, s: real, u: real, du: real)
    requires du == d * u && 0.0 <= du <= 8.0 && 0.0 <= s <= 3.22
    ensures Times(d * s, u) <= 25.76
  {
    TermTimes(s, du, 8.0, 3.22);
    assert d * s * u == s * du;
  }

  lemma {:induction false} AbsProduct(a: real, b: real)
    ensures Abs(a * b) == Abs(a) * Abs(b)
  {
  }

  // ----- How far the terms drift --------------------------------------------------------------------

  /** The difference of the terms at two arguments, with a share for what the next step adds to it. */
  function Drift(kind: Kind, first: real, first': real, x: real, y: real, k: nat): real
  {
    Abs(Term(kind, first, x, k) - Term(kind, first', y, k)) + 0.5 * Times(Abs(x - y), Term(kind, first', y, k))
  }

  /** One step, over names for its products. */
  lemma {:induction false} DriftStep(t: real, u: real, x: real, y: real, d: real, t': real, u': real, tx: real, uy: real)
    requires tx == Times(t, x) && tx == Times(t', d) && uy == Times(u, y) && uy == Times(u', d)
    requires 0.0 <= u && 0.0 <= u' && 0.0 <= x <= 2.6 && 0.0 <= y <= 2.56 && 0.0 < d
    ensures Times(Abs(t' - u'), d) <= 2.6 * Abs(t - u) + Times(Abs(x - y), u)
    ensures Times(Times(Abs(x - y), u'), d) <= 2.56 * Times(Abs(x - y), u)
  {
    hide Times;
    StepDifference(t, u, x, y, d, t', u', tx, uy);
    TimesAtMost(Abs(x), 2.6, Abs(t - u));
    ShareStep(Abs(x - y), u, y, d, u', uy);
  }

  lemma {:induction false} TimesAtMost(x: real, limit: real, a: real)
    requires x <= limit && 0.0 <= a
    ensures Times(x, a) <= limit * a
  {
    RMulMono(x, limit, a);
  }

  lemma {:induction false} StepDifference(t: real, u: real, x: real, y: real, d: real, t': real, u': real, tx: real, uy: real)
    requires tx == Times(t, x) && tx == Times(t', d) && uy == Times(u, y) && uy == Times(u', d) && 0.0 < d
    requires 0.0 <= u
    ensures Times(Abs(t' - u'), d) <= Times(Abs(x), Abs(t - u)) + Times(Abs(x - y), u)
  {
    AbsProduct(t' - u', d);
    AbsProduct(t - u, x);
    AbsProduct(x - y, u);
    SplitDifference(t, u, x, y);
    RDistribute(t', u', d);
  }

  lemma {:induction false} SplitDifference(t: real, u: real, x: real, y: real)
    ensures t * x - u * y == (t - u) * x + (x - y) * u
  {
  }

  lemma {:induction false} ShareStep(g: real, u: real, y: real, d: real, u': real, uy: real)
    requires uy == Times(u, y) && uy == Times(u', d) && 0.0 <= g && 0.0 <= u && 0.0 <= y <= 2.56
    ensures Times(Times(g, u'), d) <= 2.56 * Times(g, u)
  {
    RMulAssoc(g, u', d);
    RMulAssoc(g, u, y);
    RMulMono(0.0, g, u);
    RMulMono(y, 2.56, g * u);
  }

  /** From the second term on, the drift halves with every step. */
  lemma {:induction false} DriftHalves(kind: Kind, unit: nat, angle: nat, first: real, first': nat, exact: real, x: real, y: real, k: nat)
    requires kind != EXP && 0 < k && 0 < unit && NearAngles(unit, angle, exact, x, y)
    requires Argument(kind, first', angle * angle / unit, unit, y)
    ensures 2.0 * Drift(kind, first, first' as real, x, y, k + 1) <= Drift(kind, first, first' as real, x, y, k)
  {
    hide Term, Divisor, Argument, NearAngles, Times;
    NearSquares(unit, angle, exact, x, y);
    TermBound(kind, first', angle * angle / unit, unit, y, k);
    TermBound(kind, first', angle * angle / unit, unit, y, k + 1);
    DivisorGrows(kind, k + 1);
    var tx := TermStep(kind, first, x, k + 1);
    var uy := TermStep(kind, first' as real, y, k + 1);
    DriftStep(Term(kind, first, x, k), Term(kind, first' as real, y, k), x, y, Divisor(kind, k + 1) as real,
              Term(kind, first, x, k + 1), Term(kind, first' as real, y, k + 1), tx, uy);
    SharePositive(Abs(x - y), Term(kind, first' as real, y, k));
    HalvesFrom(Abs(Term(kind, first, x, k + 1) - Term(kind, first' as real, y, k + 1)),
               Times(Abs(x - y), Term(kind, first' as real, y, k + 1)),
               Abs(Term(kind, first, x, k) - Term(kind, first' as real, y, k)),
               Times(Abs(x - y), Term(kind, first' as real, y, k)), Divisor(kind, k + 1) as real);
  }

  lemma {:induction false} SharePositive(g: real, u: real)
    requires 0.0 <= g && 0.0 <= u
    ensures 0.0 <= Times(g, u)
  {
  }

  lemma {:induction false} HalvesFrom(a': real, s': real, a: real, s: real, d: real)
    requires 12.0 <= d && 0.0 <= a && 0.0 <= s && Times(a', d) <= 2.6 * a + s && Times(s', d) <= 2.56 * s
    ensures 2.0 * (a' + 0.5 * s') <= a + 0.5 * s
  {
    var e, f := 2.0 * a' + s', a + 0.5 * s;
    assert e * d == 2.0 * Times(a', d) + Times(s', d);
    RMulMono(12.0, d, f);
    ScaledOrder(e * d, f * d, e, f, d);
  }

  /** The sums at the two angles are never more than sixty units apart. */
  lemma {:induction false} SumsDrift(kind: Kind, unit: nat, angle: nat, first: real, first': nat, exact: real, x: real, y: real, m: nat)
    requires kind != EXP && 0 < unit && NearAngles(unit, angle, exact, x, y) && 0 < m
    requires Argument(kind, first', angle * angle / unit, unit, y)
    requires if kind == SINE then first == exact && first' == angle else first == unit as real && first' == unit
    ensures Abs(PartialSum(kind, first, x, m) - PartialSum(kind, first' as real, y, m))
         <= 60.0 - 2.0 * Drift(kind, first, first' as real, x, y, m)
  {
    hide Term, PartialSum, Argument, NearAngles, Times, Drift;
    SumStep(kind, first, x, m - 1);
    SumStep(kind, first' as real, y, m - 1);
    if m == 1 {
      FirstDrift(kind, unit, angle, first, first', exact, x, y);
      FirstTerm(kind, first, x);
      FirstTerm(kind, first' as real, y);
    } else {
      SumsDrift(kind, unit, angle, first, first', exact, x, y, m - 1);
      DriftHalves(kind, unit, angle, first, first', exact, x, y, m - 1);
      DriftCovers(kind, first, first', unit, angle, x, y, m - 1);
    }
  }

  lemma {:induction false} DriftCovers(kind: Kind, first: real, first': nat, unit: nat, angle: nat, x: real, y: real, k: nat)
    requires 0 < unit && Argument(kind, first', angle * angle / unit, unit, y)
    ensures Abs(Term(kind, first, x, k) - Term(kind, first' as real, y, k)) <= Drift(kind, first, first' as real, x, y, k)
  {
    hide Term, Argument, Times;
    TermBound(kind, first', angle * angle / unit, unit, y, k);
    SharePositive(Abs(x - y), Term(kind, first' as real, y, k));
  }

  lemma {:induction false} FirstDrift(kind: Kind, unit: nat, angle: nat, first: real, first': nat, exact: real, x: real, y: real)
    requires kind != EXP && NearAngles(unit, angle, exact, x, y)
    requires Argument(kind, first', angle * angle / unit, unit, y)
    requires if kind == SINE then first == exact && first' == angle else first == unit as real && first' == unit
    ensures Abs(first - first' as real) + 2.0 * Drift(kind, first, first' as real, x, y, 1) <= 60.0
  {
    hide Term, Divisor, Times;
    NearSquares(unit, angle, exact, x, y);
    FirstTerm(kind, first, x);
    FirstTerm(kind, first' as real, y);
    FirstDivisor(kind);
    TermBound(kind, first', angle * angle / unit, unit, y, 1);
    var tx := TermStep(kind, first, x, 1);
    var uy := TermStep(kind, first' as real, y, 1);
    DriftStep(first, first' as real, x, y, Divisor(kind, 1) as real, Term(kind, first, x, 1), Term(kind, first' as real, y, 1), tx, uy);
    FirstShare(Abs(x - y), first' as real, unit as real, if kind == SINE then 1.6 else 1.0);
    FirstBound(kind, Abs(first - first' as real), Times(Abs(x - y), first' as real),
               Abs(Term(kind, first, x, 1) - Term(kind, first' as real, y, 1)),
               Times(Abs(x - y), Term(kind, first' as real, y, 1)), Divisor(kind, 1) as real);
  }

  lemma {:induction false} FirstDivisor(kind: Kind)
    requires kind != EXP
    ensures Divisor(kind, 1) == if kind == SINE then 6 else 2
  {
  }

  lemma {:induction false} FirstShare(g: real, f: real, u: real, c: real)
    requires 0.0 <= g && 0.0 <= f <= c * u && Times(g, u) <= 25.76 && 0.0 <= c
    ensures 0.0 <= Times(g, f) <= 25.76 * c
  {
    RMulMono(f, c * u, g);
    RMulMono(0.0, g, f);
    assert c * u * g == c * (g * u);
    RMulMono(g * u, 25.76, c);
  }

  lemma {:induction false} FirstBound(kind: Kind, a: real, s: real, a': real, s': real, d: real)
    requires kind == SINE ==> a <= 8.0 && s <= 41.216 && d == 6.0
    requires kind == COSINE ==> a == 0.0 && s <= 25.76 && d == 2.0
    requires kind != EXP && Times(a', d) <= 2.6 * a + s && Times(s', d) <= 2.56 * s
    ensures a + 2.0 * (a' + 0.5 * s') <= 60.0
  {
  }

  // ----- The sums at the true angle -----------------------------------------------------------------

  /** What is near the sums at the computed angle is near those at the true one. */
  lemma {:induction false} TrueAngle(kind: Kind, unit: nat, angle: nat, exact: real, x: real, y: real, value: real, terms: nat)
    requires kind != EXP && NearAngles(unit, angle, exact, x, y)
    requires SettledWithin(kind, if kind == SINE then angle as real else unit as real, y, value, terms, 6.0 + 2.0 * terms as real)
    requires 0 < terms
    ensures SettledWithin(kind, if kind == SINE then exact else unit as real, x, value, terms, 64.0 + 8.0 * terms as real)
  {
    hide PartialSum, NearAngles, Drift, Argument;
    var first, first' := if kind == SINE then exact else unit as real, if kind == SINE then angle else unit;
    TrueArgument(kind, unit, angle, exact, x, y);
    forall m: nat | terms < m
      ensures Abs(value - AtLeastZero(PartialSum(kind, first, x, m))) <= 64.0 + 8.0 * terms as real
    {
      SumsDrift(kind, unit, angle, first, first', exact, x, y, m);
      DriftPositive(kind, first, first', unit, angle, x, y, m);
    }
  }

  lemma {:induction false} DriftPositive(kind: Kind, first: real, first': nat, unit: nat, angle: nat, x: real, y: real, k: nat)
    requires 0 < unit && Argument(kind, first', angle * angle / unit, unit, y)
    ensures 0.0 <= Drift(kind, first, first' as real, x, y, k)
  {
    hide Term, Argument, Times, Drift;
    DriftCovers(kind, first, first', unit, angle, x, y, k);
  }

  lemma {:induction false} TrueArgument(kind: Kind, unit: nat, angle: nat, exact: real, x: real, y: real)
    requires kind != EXP && NearAngles(unit, angle, exact, x, y)
    ensures 0 <= angle * angle / unit && 0 < unit
    ensures Argument(kind, if kind == SINE then angle else unit, angle * angle / unit, unit, y)
  {
    hide Argument;
    MulMono(0, angle, angle);
    DivNonnegative(angle * angle, unit);
    var e := AngleArgument(angle, unit);
  }

  // ----- The exponential at the true argument -------------------------------------------------------

  /** Two exponents at most `distance` units apart, neither past 4/5. */
  ghost predicate NearExponents(unit: nat, r: nat, distance: real, x: real, y: real)
  {
    && 0 < unit && 5 * r <= 4 * unit && Abs(x) <= 0.8
    && y == r as real / unit as real && Times(Abs(x - y), unit as real) <= distance
  }

  /** As for the angles, with a larger share for the next step. */
  function ExpDrift(unit: real, x: real, y: real, k: nat): real
  {
    Abs(Term(EXP, unit, x, k) - Term(EXP, unit, y, k)) + 1.5 * Times(Abs(x - y), Term(EXP, unit, y, k))
  }

  lemma {:induction false} ExponentFacts(unit: nat, r: nat, distance: real, x: real, y: real)
    requires NearExponents(unit, r, distance, x, y)
    ensures 0 < unit && r <= unit && 0.0 <= y <= 0.8 && Abs(x) <= 0.8 && Times(Abs(x - y), unit as real) <= distance
    ensures Argument(EXP, unit, r, unit, y)
  {
    DivideBack(r as real, unit as real);
    ScaledOrder(r as real, 0.8 * unit as real, y, 0.8, unit as real);
    var exact := ExpArgument(r, unit);
    ScaledOrder(0.0, r as real, 0.0, y, unit as real);
  }

  lemma {:induction false} ExpStep(unit: nat, r: nat, distance: real, x: real, y: real, k: nat)
    requires 0 < unit && NearExponents(unit, r, distance, x, y)
    ensures 0.0 <= Term(EXP, unit as real, y, k) && 0.0 <= Term(EXP, unit as real, y, k + 1)
    ensures var t, u, t', u' := Term(EXP, unit as real, x, k), Term(EXP, unit as real, y, k),
                                Term(EXP, unit as real, x, k + 1), Term(EXP, unit as real, y, k + 1);
      && Times(Abs(t' - u'), (k + 1) as real) <= 0.8 * Abs(t - u) + Times(Abs(x - y), u)
      && Times(Times(Abs(x - y), u'), (k + 1) as real) <= 0.8 * Times(Abs(x - y), u)
  {
    hide Term, Argument, NearExponents, Times;
    ExponentFacts(unit, r, distance, x, y);
    TermBound(EXP, unit, r, unit, y, k);
    TermBound(EXP, unit, r, unit, y, k + 1);
    ExpDivisor(k + 1);
    var u, u' := Term(EXP, unit as real, y, k), Term(EXP, unit as real, y, k + 1);
    var tx := TermStep(EXP, unit as real, x, k + 1);
    var uy := TermStep(EXP, unit as real, y, k + 1);
    StepDifference(Term(EXP, unit as real, x, k), u, x, y, (k + 1) as real, Term(EXP, unit as real, x, k + 1), u', tx, uy);
    TimesAtMost(Abs(x), 0.8, Abs(Term(EXP, unit as real, x, k) - u));
    ShareStepAt(Abs(x - y), u, y, (k + 1) as real, u', uy, 0.8);
  }

  lemma {:induction false} ExpDivisor(k: nat)
    requires 0 < k
    ensures Divisor(EXP, k) == k
  {
  }

  lemma {:induction false} ShareStepAt(g: real, u: real, y: real, d: real, u': real, uy: real, limit: real)
    requires uy == Times(u, y) && uy == Times(u', d) && 0.0 <= g && 0.0 <= u && 0.0 <= y <= limit
    ensures Times(Times(g, u'), d) <= limit * Times(g, u)
  {
    RMulAssoc(g, u', d);
    RMulAssoc(g, u, y);
    RMulMono(0.0, g, u);
    RMulMono(y, limit, g * u);
  }

  lemma {:induction false} ExpDriftHalves(unit: nat, r: nat, distance: real, x: real, y: real, k: nat)
    requires 2 <= k && 0 < unit && NearExponents(unit, r, distance, x, y)
    ensures 2.0 * ExpDrift(unit as real, x, y, k + 1) <= ExpDrift(unit as real, x, y, k)
  {
    hide Term, NearExponents, Times;
    ExpStep(unit, r, distance, x, y, k);
    SharePositive(Abs(x - y), Term(EXP, unit as real, y, k));
    ExpHalves(Abs(Term(EXP, unit as real, x, k + 1) - Term(EXP, unit as real, y, k + 1)),
              Times(Abs(x - y), Term(EXP, unit as real, y, k + 1)),
              Abs(Term(EXP, unit as real, x, k) - Term(EXP, unit as real, y, k)),
              Times(Abs(x - y), Term(EXP, unit as real, y, k)), (k + 1) as real);
  }

  lemma {:induction false} ExpHalves(a': real, s': real, a: real, s: real, d: real)
    requires 3.0 <= d && 0.0 <= a && 0.0 <= s && Times(a', d) <= 0.8 * a + s && Times(s', d) <= 0.8 * s
    ensures 2.0 * (a' + 1.5 * s') <= a + 1.5 * s
  {
    var e, f := 2.0 * a' + 3.0 * s', a + 1.5 * s;
    assert e * d == 2.0 * Times(a', d) + 3.0 * Times(s', d);
    RMulMono(3.0, d, f);
    ScaledOrder(e * d, f * d, e, f, d);
  }

  /** The sums at the two exponents differ by less than four times the distance. */
  lemma {:induction false} ExpSumsDrift(unit: nat, r: nat, distance: real, x: real, y: real, m: nat)
    requires 0 < unit && NearExponents(unit, r, distance, x, y) && 2 <= m
    ensures Abs(PartialSum(EXP, unit as real, x, m) - PartialSum(EXP, unit as real, y, m))
         <= 3.6 * distance - 2.0 * ExpDrift(unit as real, x, y, m)
  {
    hide Term, PartialSum, NearExponents, Times, ExpDrift;
    SumStep(EXP, unit as real, x, m - 1);
    SumStep(EXP, unit as real, y, m - 1);
    if m == 2 {
      SumStep(EXP, unit as real, x, 0);
      SumStep(EXP, unit as real, y, 0);
      FirstTerm(EXP, unit as real, x);
      FirstTerm(EXP, unit as real, y);
      FirstExpDrift(unit, r, distance, x, y);
    } else {
      ExpSumsDrift(unit, r, distance, x, y, m - 1);
      ExpDriftHalves(unit, r, distance, x, y, m - 1);
      ExpDriftCovers(unit, r, distance, x, y, m - 1);
    }
  }

  lemma {:induction false} ExpDriftCovers(unit: nat, r: nat, distance: real, x: real, y: real, k: nat)
    requires 0 < unit && NearExponents(unit, r, distance, x, y)
    ensures Abs(Term(EXP, unit as real, x, k) - Term(EXP, unit as real, y, k)) <= ExpDrift(unit as real, x, y, k)
  {
    hide Term, NearExponents, Times;
    ExpStep(unit, r, distance, x, y, k);
    SharePositive(Abs(x - y), Term(EXP, unit as real, y, k));
  }

  lemma {:induction false} FirstExpDrift(unit: nat, r: nat, distance: real, x: real, y: real)
    requires 0 < unit && NearExponents(unit, r, distance, x, y)
    ensures Abs(Term(EXP, unit as real, x, 1) - Term(EXP, unit as real, y, 1)) + 2.0 * ExpDrift(unit as real, x, y, 2)
         <= 3.6 * distance
  {
    hide Term, NearExponents;
    ExponentFacts(unit, r, distance, x, y);
    FirstTerm(EXP, unit as real, x);
    FirstTerm(EXP, unit as real, y);
    ExpStep(unit, r, distance, x, y, 0);
    ExpStep(unit, r, distance, x, y, 1);
  }

  /** What is near the sums at the computed exponent is near those at the true one. */
  lemma {:induction false} TrueExponent(unit: nat, r: nat, distance: real, x: real, y: real, value: real, terms: nat)
    requires NearExponents(unit, r, distance, x, y)
    requires SumsWithin(EXP, unit as real, y, value, terms, 6.0 + 2.0 * terms as real)
    ensures SumsWithin(EXP, unit as real, x, value, terms + 1, 6.0 + 2.0 * terms as real + 3.6 * distance)
  {
    hide PartialSum, ExpDrift;
    var first := unit as real;
    forall m: nat | terms + 1 < m
      ensures Abs(value - PartialSum(EXP, first, x, m)) <= 6.0 + 2.0 * terms as real + 3.6 * distance
    {
      ExpSumsDrift(unit, r, distance, x, y, m);
      ExpDriftCovers(unit, r, distance, x, y, m);
    }
  }
}
