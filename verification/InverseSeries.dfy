/** The series for atanh(1/n) and atan(1/n) in fixed point, and how near its truncated terms come. */
module InverseSeries {
  import opened Powers
  import opened Limits
  import opened Limbs

  // ----- The exact series ---------------------------------------------------------------------------

  /** What term `k` divides one by: `(2k + 1) * n^(2k + 1)`. */
  function Denominator(n: nat, k: nat): (d: nat)
    requires 0 < n
    ensures 0 < d
  {
    MulStrict(0, Pow(n, 2 * k + 1), 2 * k + 1);
    Pow(n, 2 * k + 1) * (2 * k + 1)
  }

  function InverseTerm(n: nat, k: nat): (t: real)
    requires 0 < n
    ensures 0.0 < t
  {
    1.0 / Denominator(n, k) as real
  }

  function Alternated(alternating: bool, k: nat, t: real): real
  {
    if alternating && k % 2 == 1 then -t else t
  }

  /** The first `m` terms: for every `n` above one these sums approach `atanh(1/n)`, or `atan(1/n)`
      when they alternate. */
  function InverseSum(n: nat, alternating: bool, m: nat): real
    requires 0 < n
  {
    if m == 0 then 0.0 else InverseSum(n, alternating, m - 1) + Alternated(alternating, m - 1, InverseTerm(n, m - 1))
  }

  /** The number the series approaches. */
  ghost predicate IsInverse(n: nat, alternating: bool, value: real)
    requires 0 < n
  {
    IsLimit((m: nat) => InverseSum(n, alternating, m), value)
  }

  // ----- The computed terms -----------------------------------------------------------------------

  /** The unit divided by `n`, and by `n * n` again for each further term. */
  function NestedPower(n: nat, unit: nat, k: nat): (p: int)
    requires 0 < n
    ensures 0 <= p
  {
    MulStrict(0, n, n);
    DivNonnegative(if k == 0 then unit else NestedPower(n, unit, k - 1), if k == 0 then n else n * n);
    if k == 0 then unit / n else NestedPower(n, unit, k - 1) / (n * n)
  }

  function ComputedTerm(n: nat, unit: nat, k: nat): (t: int)
    requires 0 < n
    ensures 0 <= t
  {
    DivNonnegative(NestedPower(n, unit, k), 2 * k + 1);
    NestedPower(n, unit, k) / (2 * k + 1)
  }

  function ComputedSum(n: nat, unit: nat, alternating: bool, m: nat): int
    requires 0 < n
  {
    if m == 0 then 0
    else
      var t := ComputedTerm(n, unit, m - 1);
      ComputedSum(n, unit, alternating, m - 1) + if alternating && (m - 1) % 2 == 1 then -t else t
  }

  lemma {:induction false} NestedFloor(n: nat, unit: nat, k: nat)
    requires 0 < n
    ensures NestedPower(n, unit, k) == unit / Pow(n, 2 * k + 1)
  {
    if k == 0 {
      PowZero(n);
      PowStep(n, 0);
    } else {
      NestedFloor(n, unit, k - 1);
      hide Pow, NestedPower;
      NestedStep(n, unit, k);
      PowStep(n, 2 * k - 1);
      PowStep(n, 2 * k);
      MulAssoc(n, n, Pow(n, 2 * k - 1));
      DivDiv(unit, Pow(n, 2 * k - 1), n * n);
    }
  }

  lemma {:induction false} NestedStep(n: nat, unit: nat, k: nat)
    requires 0 < n && 0 < k
    ensures 0 < n * n && NestedPower(n, unit, k) == NestedPower(n, unit, k - 1) / (n * n)
  {
    MulStrict(0, n, n);
  }

  /** Dividing step by step truncates no more than dividing once. */
  lemma {:induction false} SingleFloor(n: nat, unit: nat, k: nat)
    requires 0 < n
    ensures ComputedTerm(n, unit, k) == unit / Denominator(n, k)
  {
    NestedFloor(n, unit, k);
    hide NestedPower, Pow;
    DivDiv(unit, Pow(n, 2 * k + 1), 2 * k + 1);
  }

  // ----- Errors -------------------------------------------------------------------------------------

  lemma {:induction false} TermError(n: nat, unit: nat, k: nat)
    requires 0 < n
    ensures var c := ComputedTerm(n, unit, k) as real;
      c <= Times(unit as real, InverseTerm(n, k)) < c + 1.0
  {
    hide ComputedTerm, Denominator;
    SingleFloor(n, unit, k);
    FloorError(unit, Denominator(n, k), ComputedTerm(n, unit, k));
  }

  lemma {:induction false} FloorError(p: nat, d: nat, f: int)
    requires 0 < d && f == p / d
    ensures f as real <= Times(p as real, 1.0 / d as real) < f as real + 1.0
  {
    var x, y := p as real * (1.0 / d as real), d as real;
    assert x * y == p as real;
    RealMul(f, d);
    assert f * d <= p < f * d + d;
    BetweenMultiples(f as real, x, y, p as real, (f * d) as real);
  }

  lemma {:induction false} BetweenMultiples(f: real, x: real, d: real, p: real, fd: real)
    requires 0.0 < d && x * d == p && fd == f * d && fd <= p < fd + d
    ensures f <= x < f + 1.0
  {
    RDistribute(f, 1.0, d);
    ScaledOrder(fd, p, f, x, d);
    ScaledOrder(p, fd + d, x, f + 1.0, d);
  }

  lemma {:induction false} SumSteps(n: nat, unit: nat, alternating: bool, m: nat)
    requires 0 < n
    ensures InverseSum(n, alternating, 0) == 0.0 && ComputedSum(n, unit, alternating, 0) == 0
    ensures InverseSum(n, alternating, m + 1) == InverseSum(n, alternating, m) + Alternated(alternating, m, InverseTerm(n, m))
    ensures ComputedSum(n, unit, alternating, m + 1) == ComputedSum(n, unit, alternating, m)
              + var t := ComputedTerm(n, unit, m); if alternating && m % 2 == 1 then -t else t
  {
    hide InverseTerm, ComputedTerm;
  }

  lemma {:induction false} SumError(n: nat, unit: nat, alternating: bool, m: nat)
    requires 0 < n
    ensures Abs(Times(unit as real, InverseSum(n, alternating, m)) - ComputedSum(n, unit, alternating, m) as real)
         <= m as real
  {
    hide InverseSum, ComputedSum, InverseTerm, ComputedTerm, Times;
    if m == 0 {
      SumSteps(n, unit, alternating, 0);
      TimesSum(unit as real, 0.0, 0.0);
    } else {
      SumError(n, unit, alternating, m - 1);
      SumSteps(n, unit, alternating, m - 1);
      TermError(n, unit, m - 1);
      TimesSum(unit as real, InverseSum(n, alternating, m - 1), InverseTerm(n, m - 1));
      TimesSum(unit as real, InverseSum(n, alternating, m - 1), -InverseTerm(n, m - 1));
    }
  }

  lemma {:induction false} DenominatorGrows(n: nat, k: nat)
    requires 1 < n
    ensures 2 * Denominator(n, k) <= Denominator(n, k + 1)
  {
    hide Pow;
    var p, d := Pow(n, 2 * k + 1), 2 * k + 1;
    PowStep(n, 2 * k + 1);
    PowStep(n, 2 * k + 2);
    MulMono(2, n, p);
    MulMono(1, n, n * p);
    GrowStep(p, Pow(n, 2 * k + 3), d);
  }

  lemma {:induction false} GrowStep(p: nat, p': nat, d: nat)
    requires 2 * p <= p'
    ensures 2 * (p * d) <= p' * (d + 2)
  {
    MulMono(2 * p, p', d + 2);
    MulMono(d, d + 2, 2 * p);
    assert 2 * (p * d) == d * (2 * p);
  }

  lemma {:induction false} TermHalves(n: nat, k: nat)
    requires 1 < n
    ensures 2.0 * InverseTerm(n, k + 1) <= InverseTerm(n, k)
  {
    hide Denominator;
    DenominatorGrows(n, k);
    InverseHalves(Denominator(n, k) as real, Denominator(n, k + 1) as real);
  }

  lemma {:induction false} InverseHalves(d: real, e: real)
    requires 0.0 < d && 2.0 * d <= e
    ensures 2.0 * (1.0 / e) <= 1.0 / d
  {
    var x, y := 1.0 / d, 1.0 / e;
    assert x * d == 1.0 && y * e == 1.0;
    RMulMono(2.0 * d, e, y);
    ScaledOrder(2.0 * y * d, x * d, 2.0 * y, x, d);
  }

  lemma {:induction false} TailBound(n: nat, alternating: bool, k: nat, m: nat)
    requires 1 < n && k <= m
    ensures Abs(InverseSum(n, alternating, m) - InverseSum(n, alternating, k))
         <= 2.0 * InverseTerm(n, k) - 2.0 * InverseTerm(n, m)
  {
    hide InverseTerm, InverseSum;
    if k < m {
      TailBound(n, alternating, k, m - 1);
      SumSteps(n, 0, alternating, m - 1);
      TermHalves(n, m - 1);
    }
  }

  /** Once a power has vanished, the computed sum is near every later partial sum. */
  lemma {:induction false} SumWithin(n: nat, unit: nat, alternating: bool, k: nat, m: nat)
    requires 1 < n && 0 < k <= m && NestedPower(n, unit, k) == 0
    ensures Abs(Times(unit as real, InverseSum(n, alternating, m)) - ComputedSum(n, unit, alternating, k) as real)
         <= k as real + 1.0
  {
    hide InverseTerm, InverseSum, ComputedSum, Times, NestedPower;
    SumError(n, unit, alternating, k);
    TailBound(n, alternating, k, m);
    LastTerm(n, unit, k);
    var bound := 2.0 * InverseTerm(n, k);
    TimesWithin(unit as real, InverseSum(n, alternating, m), InverseSum(n, alternating, k), bound);
    TimesSum(unit as real, InverseTerm(n, k), InverseTerm(n, k));
  }

  lemma {:induction false} LastTerm(n: nat, unit: nat, k: nat)
    requires 1 < n && 0 < k && NestedPower(n, unit, k) == 0
    ensures Times(unit as real, InverseTerm(n, k)) <= 0.5
  {
    hide NestedPower, Pow;
    NestedFloor(n, unit, k);
    var p, d := Pow(n, 2 * k + 1), Denominator(n, k);
    DivBelow(unit, p, 1);
    MulMono(3, 2 * k + 1, p);
    SmallQuotient(unit as real, d as real);
  }

  lemma {:induction false} SmallQuotient(u: real, d: real)
    requires 0.0 < d && 2.0 * u <= d
    ensures Times(u, 1.0 / d) <= 0.5
  {
    var x := 1.0 / d;
    assert x * d == 1.0;
    RMulMono(2.0 * u, d, x);
  }

  // ----- The computation ----------------------------------------------------------------------------

  const GUARD_BITS := 32
  const GUARD := 0x1_0000_0000

  lemma {:induction false} GuardIs()
    ensures P2(GUARD_BITS) == GUARD
  {
    hide P2, Pow;
    WordSizes();
  }

  /** A value is within one unit, and the guarded errors of the terms, of every later partial sum. */
  ghost predicate Approximates(n: nat, alternating: bool, unit: nat, value: nat, terms: nat)
    requires 0 < n
  {
    forall m: nat :: terms < m ==>
      Abs(Times(unit as real, InverseSum(n, alternating, m)) - value as real) <= 1.0 + (terms + 1) as real / GUARD as real
  }

  lemma {:induction false} TermsFall(n: nat, unit: nat, k: nat)
    requires 1 < n && 0 < k
    ensures ComputedTerm(n, unit, k) <= ComputedTerm(n, unit, k - 1)
    ensures 2 * NestedPower(n, unit, k) <= NestedPower(n, unit, k - 1)
  {
    hide NestedPower;
    NestedStep(n, unit, k);
    var p := NestedPower(n, unit, k - 1);
    MulMono(2, n, n);
    QuarterAtMost(p, n * n, 2 * k - 1);
  }

  lemma {:induction false} QuarterAtMost(p: int, q: int, d: int)
    requires 0 <= p && 4 <= q && 0 < d
    ensures 2 * (p / q) <= p && p / q / (d + 2) <= p / d
  {
    assert (p / q) * q <= p;
    DivNonnegative(p, q);
    MulMono(4, q, p / q);
    DivMono(p / q, p, d + 2);
    var f := p / (d + 2);
    DivNonnegative(p, d + 2);
    assert f * (d + 2) <= p;
    MulMono(d, d + 2, f);
    DivBelow(p, d, f);
  }

  /** Sums 32 bits finer than asked for, and drops those bits at the end. */
  method SumOfInverses(n: nat, precision: nat, alternating: bool) returns (value: nat)
    requires 1 < n < 0x1_0000
    ensures exists terms: nat :: terms <= precision + 33
              && Approximates(n, alternating, P2(precision), value, terms)
  {
    hide P2, Pow, NestedPower, ComputedTerm, ComputedSum, InverseSum, Approximates;
    var guarded := P2(precision + GUARD_BITS);
    var sum, terms := GuardedSum(n, guarded, precision + GUARD_BITS, alternating);
    value := sum / GUARD;
    P2Add(precision, GUARD_BITS);
    GuardIs();
    SumScaled(n, precision, guarded, alternating, sum, value, terms);
  }

  /** Terms to add and terms to take away are kept apart until the end. */
  method GuardedSum(n: nat, unit: nat, bits: nat, alternating: bool) returns (sum: nat, ghost terms: nat)
    requires 1 < n < 0x1_0000 && unit == P2(bits) && GUARD_BITS <= bits
    ensures 0 < terms <= bits + 1 && NestedPower(n, unit, terms) == 0
    ensures sum == ComputedSum(n, unit, alternating, terms)
  {
    hide *;
    var power := FirstPower(n, unit, bits);
    var added: nat, removed: nat := power, 0;
    FirstSum(n, unit, alternating);
    var k := 1;
    while power != 0
      invariant 0 < k <= bits + 2 && power == NestedPower(n, unit, k - 1) && Fits(power, k - 1, unit)
      invariant added - removed == ComputedSum(n, unit, alternating, k)
      invariant k == 1 ==> power != 0
      invariant added - removed >= if alternating && k % 2 == 0 then 0 else ComputedTerm(n, unit, k - 1)
      decreases power
    {
      FewTerms(power, bits, k - 1);
      SumSteps(n, unit, alternating, k);
      TermsFall(n, unit, k);
      FitsNext(n, unit, k);
      var term;
      power, term := NextTerm(n, unit, k, power);
      if alternating && k % 2 == 1 { removed := removed + term; } else { added := added + term; }
      k := k + 1;
    }
    terms := k - 1;
    SumSteps(n, unit, alternating, terms);
    ZeroTerm(n, unit, terms);
    sum := added - removed;
  }

  predicate Fits(power: nat, k: nat, unit: nat)
  {
    power * P2(k) <= unit
  }

  method FirstPower(n: nat, unit: nat, bits: nat) returns (power: nat)
    requires 1 < n < 0x1_0000 && unit == P2(bits) && GUARD_BITS <= bits
    ensures 0 < power == NestedPower(n, unit, 0) && Fits(power, 0, unit)
  {
    hide P2, Pow;
    P2Zero();
    GuardIs();
    P2Mono(GUARD_BITS, bits);
    DivBelow(unit, n, 1);
    assert unit / n * n <= unit;
    MulMono(1, n, unit / n);
    power := unit / n;
  }

  method NextTerm(n: nat, ghost unit: nat, k: nat, power: nat) returns (power': nat, term: nat)
    requires 1 < n < 0x1_0000 && 0 < k && power == NestedPower(n, unit, k - 1)
    ensures power' == NestedPower(n, unit, k) && term == ComputedTerm(n, unit, k)
  {
    hide NestedPower;
    NestedStep(n, unit, k);
    power' := power / (n * n);
    term := power' / (2 * k + 1);
  }

  lemma {:induction false} FitsNext(n: nat, unit: nat, k: nat)
    requires 1 < n && 0 < k && Fits(NestedPower(n, unit, k - 1), k - 1, unit)
    ensures Fits(NestedPower(n, unit, k), k, unit)
  {
    hide P2, Pow, NestedPower;
    TermsFall(n, unit, k);
    P2Step(k - 1);
    MulMono(2 * NestedPower(n, unit, k), NestedPower(n, unit, k - 1), P2(k - 1));
  }

  lemma {:induction false} FirstSum(n: nat, unit: nat, alternating: bool)
    requires 0 < n
    ensures ComputedSum(n, unit, alternating, 1) == NestedPower(n, unit, 0) == ComputedTerm(n, unit, 0)
  {
    hide NestedPower;
    SumSteps(n, unit, alternating, 0);
  }

  lemma {:induction false} ZeroTerm(n: nat, unit: nat, k: nat)
    requires 0 < n && NestedPower(n, unit, k) == 0
    ensures ComputedTerm(n, unit, k) == 0
  {
    hide NestedPower;
  }

  lemma {:induction false} FewTerms(power: nat, bits: nat, k: nat)
    requires 0 < power && Fits(power, k, P2(bits))
    ensures k <= bits
  {
    hide P2, Pow;
    MulMono(1, power, P2(k));
    if k > bits { P2Strict(bits, k); }
  }

  /** Dropping the guard bits. */
  lemma {:induction false} SumScaled(n: nat, precision: nat, guarded: nat, alternating: bool, sum: nat, value: nat, terms: nat)
    requires 1 < n && 0 < terms && guarded == P2(precision) * GUARD && NestedPower(n, guarded, terms) == 0
    requires sum == ComputedSum(n, guarded, alternating, terms) && value == sum / GUARD
    ensures Approximates(n, alternating, P2(precision), value, terms)
  {
    hide P2, Pow, NestedPower, ComputedSum, InverseSum, Times;
    var unit := P2(precision) as real;
    forall m: nat | terms < m
      ensures Abs(Times(unit, InverseSum(n, alternating, m)) - value as real) <= 1.0 + (terms + 1) as real / GUARD as real
    {
      SumWithin(n, guarded, alternating, terms, m);
      DropGuard(unit, InverseSum(n, alternating, m), guarded as real, sum, value, (terms + 1) as real);
    }
  }

  lemma {:induction false} DropGuard(unit: real, s: real, guarded: real, sum: nat, value: nat, error: real)
    requires guarded == unit * GUARD as real && value == sum / GUARD
    requires Abs(Times(guarded, s) - sum as real) <= error
    ensures Abs(Times(unit, s) - value as real) <= 1.0 + error / GUARD as real
  {
    var us := Times(unit, s);
    assert Times(guarded, s) == us * GUARD as real;
    assert value * GUARD <= sum < value * GUARD + GUARD;
    var e := error / GUARD as real;
    assert e * GUARD as real == error;
  }
}
