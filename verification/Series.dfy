/** The Taylor series of e^r, sin and cos in fixed point, with every step truncated, against the
    exact partial sums. Numbers are counted in units of the last place throughout. */
module Series {
  import opened Powers

  datatype Kind = EXP | SINE | COSINE

  /** What term `k` divides by, after multiplying the term before it. */
  function Divisor(kind: Kind, k: nat): (d: nat)
    requires 0 < k
    ensures 0 < d
  {
    match kind
    case EXP => k
    case SINE =>
      MulStrict(0, 2 * k, 2 * k + 1);
      (2 * k) * (2 * k + 1)
    case COSINE =>
      MulStrict(0, 2 * k - 1, 2 * k);
      (2 * k - 1) * (2 * k)
  }

  lemma {:induction false} DivisorGrows(kind: Kind, k: nat)
    requires 0 < k
    ensures DivisorAtLeast(kind, k, Divisor(kind, k) as real)
  {
    if k > 1 {
      MulMono(4, 2 * k, 5);
      MulMono(5, 2 * k + 1, 2 * k);
      MulMono(3, 2 * k - 1, 4);
      MulMono(4, 2 * k, 2 * k - 1);
    }
  }

  // ----- Exact terms and partial sums ---------------------------------------------------------------

  /** Term `k` of a series in `x`, of which the first is given: for e^r the terms are `r^k / k!`
      times the first, for sine and cosine, with `x` the square of the angle, `x^k` over the
      factorials of the odd or the even numbers. */
  function Term(kind: Kind, first: real, x: real, k: nat): real
  {
    if k == 0 then first else Term(kind, first, x, k - 1) * x / Divisor(kind, k) as real
  }

  function Alternate(kind: Kind, k: nat, t: real): real
  {
    if kind != EXP && k % 2 == 1 then -t else t
  }

  /** The sum of the first `m` terms, alternating for sine and cosine. */
  function PartialSum(kind: Kind, first: real, x: real, m: nat): real
  {
    if m == 0 then 0.0 else PartialSum(kind, first, x, m - 1) + Alternate(kind, m - 1, Term(kind, first, x, m - 1))
  }

  function Factorial(n: nat): (r: nat)
    ensures 0 < r
  {
    if n == 0 then 1
    else
      MulStrict(0, Factorial(n - 1), n);
      n * Factorial(n - 1)
  }

  /** The number whose factorial term `k` has below it: the exponent of its power of the angle. */
  function Order(kind: Kind, k: nat): nat
  {
    match kind
    case EXP => k
    case SINE => 2 * k + 1
    case COSINE => 2 * k
  }

  function RealPower(x: real, k: nat): real
  {
    if k == 0 then 1.0 else Times(RealPower(x, k - 1), x)
  }

  /** Term `k` is `first * x^k` over the factorial of its order. */
  lemma {:induction false} TermClosed(kind: Kind, first: real, x: real, k: nat)
    ensures Times(Term(kind, first, x, k), Factorial(Order(kind, k)) as real) == Times(first, RealPower(x, k))
  {
    hide Times, Factorial, Divisor, Term;
    if k == 0 {
      FirstOrder(kind);
      FirstTerm(kind, first, x);
      TimesOne(first);
    } else {
      TermClosed(kind, first, x, k - 1);
      NextOrder(kind, k);
      var tx := TermStep(kind, first, x, k);
      ClosedStep(Term(kind, first, x, k - 1), Factorial(Order(kind, k - 1)) as real, x, Divisor(kind, k) as real,
                 Term(kind, first, x, k), Factorial(Order(kind, k)) as real, first, RealPower(x, k - 1));
    }
  }

  lemma {:induction false} FirstOrder(kind: Kind)
    ensures Factorial(Order(kind, 0)) == 1
  {
    assert Factorial(0) == 1 && Factorial(1) == 1 * Factorial(0);
  }

  lemma {:induction false} NextOrder(kind: Kind, k: nat)
    requires 0 < k
    ensures Factorial(Order(kind, k)) as real == Times(Factorial(Order(kind, k - 1)) as real, Divisor(kind, k) as real)
  {
    hide Factorial;
    var n, f := Order(kind, k), Factorial(Order(kind, k - 1));
    RealMul(f, Divisor(kind, k));
    FactorialStep(n);
    if kind != EXP {
      FactorialStep(n - 1);
      TwoFactors(n - 1, n, f);
    }
  }

  lemma {:induction false} FactorialStep(n: nat)
    requires 0 < n
    ensures Factorial(n) == Factorial(n - 1) * n
  {
  }

  lemma {:induction false} TwoFactors(a: nat, b: nat, f: nat)
    ensures f * a * b == f * (a * b)
  {
    MulAssoc(f, a, b);
  }

  lemma {:induction false} ClosedStep(t: real, f: real, x: real, d: real, t': real, f': real, first: real, p: real)
    requires Times(t, f) == Times(first, p) && Times(t', d) == Times(t, x) && f' == Times(f, d)
    ensures Times(t', f') == Times(first, Times(p, x))
  {
    assert t' * (f * d) == (t' * d) * f;
    assert (t * x) * f == (t * f) * x;
    RMulAssoc(first, p, x);
  }

  // ----- Fixed-point terms ------------------------------------------------------------------------

  /** The same term as computed: product and quotient truncated, `unit` being one. */
  function FixedTerm(kind: Kind, first: nat, x: nat, unit: nat, k: nat): (t: int)
    requires 0 < unit
    ensures 0 <= t
  {
    if k == 0 then first
    else
      var product := FixedTerm(kind, first, x, unit, k - 1) * x;
      MulMono(0, FixedTerm(kind, first, x, unit, k - 1), x);
      DivNonnegative(product, unit);
      DivNonnegative(product / unit, Divisor(kind, k));
      product / unit / Divisor(kind, k)
  }

  function FixedSum(kind: Kind, first: nat, x: nat, unit: nat, m: nat): int
    requires 0 < unit
  {
    if m == 0 then 0
    else
      var t := FixedTerm(kind, first, x, unit, m - 1);
      FixedSum(kind, first, x, unit, m - 1) + if kind != EXP && (m - 1) % 2 == 1 then -t else t
  }

  /** The fixed-point argument for the exact one: truncated for the squares of angles below 8/5,
      exact for exponents below one. */
  predicate Argument(kind: Kind, first: nat, x: nat, unit: nat, exact: real)
  {
    && 0 < unit && 0.0 <= exact && x as real <= exact * unit as real
    && (if kind == EXP then exact <= 1.0 && x as real == exact * unit as real && first == unit
        else exact <= 2.56 && exact * unit as real - x as real <= 1.0
             && (if kind == SINE then first as real <= 1.6 * unit as real else first == unit))
  }

  // ----- Errors of single terms -------------------------------------------------------------------

  /** Two truncations in a row are one. */
  lemma {:induction false} FloorStep(c: nat, x: nat, unit: nat, d: nat, f: int, q: real) returns (fd: real, cq: real)
    requires 0 < unit && 0 < d && f == c * x / unit / d && q * unit as real == x as real
    ensures fd == f as real * d as real && cq == c as real * q && fd <= cq < fd + d as real
  {
    fd, cq := f as real * d as real, c as real * q;
    RDistribute(f as real, 1.0, d as real);
    MulMono(0, c, x);
    DivDiv(c * x, unit, d);
    QuotientBounds(c * x, unit * d, f);
    RealMul(unit, d);
    RealMul(c, x);
    FloorScaled(f as real, unit as real, d as real, c as real, q, x as real, (unit * d) as real, (c * x) as real);
  }

  lemma {:induction false} QuotientBounds(p: nat, n: nat, f: int)
    requires 0 < n && f == p / n
    ensures f as real * n as real <= p as real < (f as real + 1.0) * n as real
  {
    RealMul(f, n);
    RDistribute(f as real, 1.0, n as real);
    assert f * n <= p < f * n + n;
  }

  lemma {:induction false} FloorScaled(f: real, u: real, d: real, c: real, q: real, x: real, n: real, p: real)
    requires 0.0 < u && n == u * d && p == c * x && q * u == x
    requires f * n <= p < (f + 1.0) * n
    ensures f * d <= c * q < (f + 1.0) * d
  {
    RMulAssoc(c, q, u);
    RMulAssoc(f, d, u);
    RMulAssoc(f + 1.0, d, u);
    RMulCancel(f * d, c * q, u);
    RMulCancel(c * q, (f + 1.0) * d, u);
  }

  /** One more step keeps a computed term within two units below the exact one. */
  lemma {:induction false} ErrorStep(t: real, c: real, x: real, q: real, d: real, next: real, floor: real, e: real, b: real,
      fd: real, cq: real, tx: real, gap: real, ex: real)
    requires 0.0 <= c <= t <= c + e && 0.0 <= q <= x && gap == Times(c, x - q) && gap <= b && 0.0 < d
    requires ex == Times(e, x) && ex + b <= d
    requires fd == Times(floor, d) && cq == Times(c, q) && fd <= cq < fd + d && tx == Times(t, x) && tx == Times(next, d)
    ensures floor <= next <= floor + 2.0
  {
    ProductBounds(t, c, x, q, d, e, b, fd, cq, tx, gap, ex);
    QuotientWithin(floor, next, d, tx, fd);
  }

  lemma {:induction false} QuotientWithin(a: real, n: real, d: real, nd: real, ad: real)
    requires 0.0 < d && nd == n * d && ad == a * d && ad <= nd <= ad + 2.0 * d
    ensures a <= n <= a + 2.0
  {
    RDistribute(a, 2.0, d);
    ScaledOrder(ad, nd, a, n, d);
    ScaledOrder(nd, ad + 2.0 * d, n, a + 2.0, d);
  }

  lemma {:induction false} ProductBounds(t: real, c: real, x: real, q: real, d: real, e: real, b: real,
      fd: real, cq: real, tx: real, gap: real, ex: real)
    requires 0.0 <= c <= t <= c + e && 0.0 <= q <= x && gap == c * (x - q) && gap <= b && ex == e * x && ex + b <= d
    requires cq == c * q && tx == t * x && fd <= cq < fd + d
    ensures fd <= tx <= fd + 2.0 * d
  {
    ProductSplit(t, c, x, q);
    RMulMono(t - c, e, x);
    RMulMono(0.0, t - c, x);
    RMulMono(0.0, c, x - q);
    ErrorSum(tx, cq, (t - c) * x, gap, ex, b, d, fd);
  }

  lemma {:induction false} ProductSplit(t: real, c: real, x: real, q: real)
    ensures t * x == c * q + (t - c) * x + c * (x - q)
  {
  }

  lemma {:induction false} ErrorSum(tx: real, cq: real, s: real, r: real, ex: real, b: real, d: real, fd: real)
    requires tx == cq + s + r && 0.0 <= s <= ex && 0.0 <= r <= b && ex + b <= d
    requires fd <= cq < fd + d
    ensures fd <= tx <= fd + 2.0 * d
  {
  }

  lemma {:induction false} TermStep(kind: Kind, first: real, x: real, k: nat) returns (tx: real)
    requires 0 < k
    ensures tx == Times(Term(kind, first, x, k - 1), x) && tx == Times(Term(kind, first, x, k), Divisor(kind, k) as real)
  {
    hide Term, Divisor;
    tx := Term(kind, first, x, k - 1) * x;
    TermIs(kind, first, x, k);
    DivideBack(tx, Divisor(kind, k) as real);
  }

  lemma {:induction false} TermIs(kind: Kind, first: real, x: real, k: nat)
    requires 0 < k
    ensures Term(kind, first, x, k) == Term(kind, first, x, k - 1) * x / Divisor(kind, k) as real
  {
    hide Divisor;
  }

  lemma {:induction false} DivideBack(t: real, d: real)
    requires 0.0 < d
    ensures t / d * d == t
  {
  }

  lemma {:induction false} FixedIs(kind: Kind, first: nat, x: nat, unit: nat, k: nat)
    requires 0 < unit && 0 < k
    ensures FixedTerm(kind, first, x, unit, k)
         == FixedTerm(kind, first, x, unit, k - 1) * x / unit / Divisor(kind, k)
  {
    hide Divisor;
  }

  lemma {:induction false} FixedStep(kind: Kind, first: nat, x: nat, unit: nat, k: nat, q: real)
    returns (fd: real, cq: real)
    requires 0 < unit && 0 < k && q * unit as real == x as real
    ensures fd == Times(FixedTerm(kind, first, x, unit, k) as real, Divisor(kind, k) as real)
    ensures cq == Times(FixedTerm(kind, first, x, unit, k - 1) as real, q)
    ensures fd <= cq < fd + Divisor(kind, k) as real
  {
    hide FixedTerm, Divisor;
    FixedIs(kind, first, x, unit, k);
    fd, cq := FloorStep(FixedTerm(kind, first, x, unit, k - 1), x, unit, Divisor(kind, k),
                        FixedTerm(kind, first, x, unit, k), q);
  }

  /** Terms never exceed 8/5 of the unit. */
  lemma {:induction false} TermBound(kind: Kind, first: nat, x: nat, unit: nat, exact: real, k: nat)
    requires Argument(kind, first, x, unit, exact)
    ensures 0.0 <= Term(kind, first as real, exact, k) <= 1.6 * unit as real
  {
    hide Term, Divisor;
    FirstTerm(kind, first as real, exact);
    if k > 0 {
      hide *;
      TermBound(kind, first, x, unit, exact, k - 1);
      var tx := TermStep(kind, first as real, exact, k);
      DivisorGrows(kind, k);
      ArgumentRange(kind, first, x, unit, exact);
      BoundStep(kind, k, Term(kind, first as real, exact, k - 1), Term(kind, first as real, exact, k), exact,
                Divisor(kind, k) as real, unit as real, tx);
    }
  }

  lemma {:induction false} FirstTerm(kind: Kind, first: real, x: real)
    ensures Term(kind, first, x, 0) == first
  {
  }

  lemma {:induction false} ArgumentRange(kind: Kind, first: nat, x: nat, unit: nat, exact: real)
    requires Argument(kind, first, x, unit, exact)
    ensures 0 < unit && 0.0 <= exact <= (if kind == EXP then 1.0 else 2.56)
    ensures 0.0 <= first as real <= 1.6 * unit as real && (kind != SINE ==> first == unit)
  {
  }

  predicate DivisorAtLeast(kind: Kind, k: nat, d: real)
  {
    match kind
    case EXP => d >= k as real
    case SINE => d >= if k == 1 then 6.0 else 20.0
    case COSINE => d >= if k == 1 then 2.0 else 12.0
  }

  lemma {:induction false} BoundStep(kind: Kind, k: nat, t: real, t': real, exact: real, d: real, u: real, tx: real)
    requires 0 < k && tx == Times(t, exact) && tx == Times(t', d) && 0.0 < u && 0.0 <= exact <= (if kind == EXP then 1.0 else 2.56)
    requires 0.0 <= t <= 1.6 * u && (kind == COSINE && k == 1 ==> t == u)
    requires DivisorAtLeast(kind, k, d)
    ensures 0.0 <= t' <= 1.6 * u
  {
    if kind == EXP {
      TermTimes(t, exact, 1.0, 1.6 * u);
      ShrinkBelow(tx, t', d, 1.6 * u, 1.0);
    } else if kind == COSINE && k == 1 {
      TermTimes(t, exact, 2.56, u);
      ShrinkBelow(tx, t', d, 1.28 * u, 2.0);
    } else {
      TermTimes(t, exact, 2.56, 1.6 * u);
      ShrinkBelow(tx, t', d, 1.6 * u, 2.56);
    }
  }

  lemma {:induction false} TermTimes(t: real, x: real, limit: real, bound: real)
    requires 0.0 <= t <= bound && 0.0 <= x <= limit
    ensures 0.0 <= t * x <= bound * limit
  {
    RMulMono(t, bound, x);
    RMulMono(x, limit, bound);
    RMulMono(0.0, t, x);
  }

  lemma {:induction false} ShrinkBelow(product: real, t': real, d: real, bound: real, least: real)
    requires t' * d == product && 0.0 <= product <= bound * least && 0.0 < least <= d && 0.0 <= bound
    ensures 0.0 <= t' <= bound
  {
    RMulCancel(0.0, t', d);
    RMulMono(least, d, bound);
    RMulCancel(t', bound, d);
  }

  /** A computed term is below the exact one, by at most two units. */
  lemma {:induction false} TermError(kind: Kind, first: nat, x: nat, unit: nat, exact: real, k: nat)
    requires Argument(kind, first, x, unit, exact)
    ensures var t, c := Term(kind, first as real, exact, k), FixedTerm(kind, first, x, unit, k) as real;
      c <= t <= c + (if k == 0 then 0.0 else 2.0)
  {
    hide Term, FixedTerm, Divisor;
    FirstTerm(kind, first as real, exact);
    FirstFixed(kind, first, x, unit);
    if k > 0 {
      hide *;
      ArgumentRange(kind, first, x, unit, exact);
      TermError(kind, first, x, unit, exact, k - 1);
      TermBound(kind, first, x, unit, exact, k - 1);
      var tx := TermStep(kind, first as real, exact, k);
      DivisorGrows(kind, k);
      var b := if kind == EXP then 0.0 else 1.6;
      var e := if k == 1 then 0.0 else 2.0;
      var q, gap := ArgumentGap(kind, first, x, unit, exact, FixedTerm(kind, first, x, unit, k - 1) as real, b);
      var fd, cq := FixedStep(kind, first, x, unit, k, q);
      var ex := EnoughDivisor(kind, k, exact, Divisor(kind, k) as real, e, b);
      ErrorStep(Term(kind, first as real, exact, k - 1), FixedTerm(kind, first, x, unit, k - 1) as real, exact, q,
                Divisor(kind, k) as real, Term(kind, first as real, exact, k), FixedTerm(kind, first, x, unit, k) as real,
                e, b, fd, cq, tx, gap, ex);
    }
  }

  lemma {:induction false} FirstFixed(kind: Kind, first: nat, x: nat, unit: nat)
    requires 0 < unit
    ensures FixedTerm(kind, first, x, unit, 0) == first
  {
  }

  /** The argument is truncated by less than a unit, which scales a term by little. */
  lemma {:induction false} ArgumentGap(kind: Kind, first: nat, x: nat, unit: nat, exact: real, c: real, b: real)
    returns (q: real, gap: real)
    requires Argument(kind, first, x, unit, exact) && 0.0 <= c <= 1.6 * unit as real
    requires b == if kind == EXP then 0.0 else 1.6
    ensures q * unit as real == x as real && 0.0 <= q <= exact && gap == Times(c, exact - q) && gap <= b
  {
    q := x as real / unit as real;
    gap := c * (exact - q);
    GapAt(kind == EXP, exact, x as real / unit as real, unit as real, x as real, c);
  }

  lemma {:induction false} GapAt(exactly: bool, exact: real, q: real, u: real, x: real, c: real)
    requires 0.0 < u && q * u == x && 0.0 <= x <= exact * u && 0.0 <= c <= 1.6 * u
    requires if exactly then x == exact * u else exact * u - x <= 1.0
    ensures 0.0 <= q <= exact && c * (exact - q) <= if exactly then 0.0 else 1.6
  {
    RDistribute(exact, q, u);
    RMulCancel(q, exact, u);
    RMulCancel(0.0, q, u);
    if !exactly { GapScaled(exact - q, u, c); }
  }

  lemma {:induction false} GapScaled(s: real, u: real, c: real)
    requires 0.0 <= s && s * u <= 1.0 && c <= 1.6 * u
    ensures c * s <= 1.6
  {
    RMulMono(c, 1.6 * u, s);
    assert 1.6 * u * s == 1.6 * (s * u);
  }

  lemma {:induction false} EnoughDivisor(kind: Kind, k: nat, exact: real, d: real, e: real, b: real) returns (ex: real)
    requires 0 < k && 0.0 <= exact <= (if kind == EXP then 1.0 else 2.56)
    requires b == (if kind == EXP then 0.0 else 1.6) && e == (if k == 1 then 0.0 else 2.0)
    requires DivisorAtLeast(kind, k, d)
    ensures ex == Times(e, exact) && ex + b <= d
  {
    ex := e * exact;
  }

  // ----- Errors of sums ---------------------------------------------------------------------------

  lemma {:induction false} SumStep(kind: Kind, first: real, x: real, m: nat)
    ensures PartialSum(kind, first, x, m + 1)
         == PartialSum(kind, first, x, m) + Alternate(kind, m, Term(kind, first, x, m))
    ensures PartialSum(kind, first, x, 0) == 0.0
  {
    hide Term;
  }

  lemma {:induction false} FixedSumStep(kind: Kind, first: nat, x: nat, unit: nat, m: nat)
    requires 0 < unit
    ensures FixedSum(kind, first, x, unit, m + 1) == FixedSum(kind, first, x, unit, m)
              + var t := FixedTerm(kind, first, x, unit, m); if kind != EXP && m % 2 == 1 then -t else t
    ensures FixedSum(kind, first, x, unit, 0) == 0
  {
    hide FixedTerm;
  }

  lemma {:induction false} SumError(kind: Kind, first: nat, x: nat, unit: nat, exact: real, m: nat)
    requires Argument(kind, first, x, unit, exact)
    ensures Abs(PartialSum(kind, first as real, exact, m) - FixedSum(kind, first, x, unit, m) as real) <= 2.0 * m as real
  {
    hide Term, FixedTerm, PartialSum, FixedSum;
    SumStep(kind, first as real, exact, if m > 0 then m - 1 else 0);
    FixedSumStep(kind, first, x, unit, if m > 0 then m - 1 else 0);
    if m > 0 {
      SumError(kind, first, x, unit, exact, m - 1);
      TermError(kind, first, x, unit, exact, m - 1);
    }
  }

  /** From the second on, every term is at most half the one before it. */
  lemma {:induction false} TermHalves(kind: Kind, first: nat, x: nat, unit: nat, exact: real, k: nat)
    requires Argument(kind, first, x, unit, exact) && 0 < k
    ensures 0.0 <= 2.0 * Term(kind, first as real, exact, k + 1) <= Term(kind, first as real, exact, k)
  {
    hide *;
    TermBound(kind, first, x, unit, exact, k);
    TermBound(kind, first, x, unit, exact, k + 1);
    ArgumentRange(kind, first, x, unit, exact);
    DivisorGrows(kind, k + 1);
    var tx := TermStep(kind, first as real, exact, k + 1);
    HalvesStep(kind, k, Term(kind, first as real, exact, k), Term(kind, first as real, exact, k + 1), exact,
               Divisor(kind, k + 1) as real, tx);
  }

  lemma {:induction false} HalvesStep(kind: Kind, k: nat, t: real, t': real, x: real, d: real, tx: real)
    requires 0 < k && 0.0 <= t && 0.0 <= t' && 0.0 <= x <= (if kind == EXP then 1.0 else 2.56)
    requires tx == Times(t, x) && tx == Times(t', d) && DivisorAtLeast(kind, k + 1, d)
    ensures 2.0 * t' <= t
  {
    if kind == EXP {
      HalvesAt(t, t', x, d, tx, 1.0, 2.0);
    } else {
      HalvesAt(t, t', x, d, tx, 2.56, 12.0);
    }
  }

  lemma {:induction false} HalvesAt(t: real, t': real, x: real, d: real, tx: real, limit: real, least: real)
    requires 0.0 <= t && 0.0 <= t' && 0.0 <= x <= limit && least <= d && 0.0 < 2.0 * limit <= least
    requires tx == Times(t, x) && tx == Times(t', d)
    ensures 2.0 * t' <= t
  {
    TermTimes(t, x, limit, t);
    RMulMono(least, d, t');
    RMulMono(2.0 * limit, least, t');
    ScaledOrder(2.0 * t' * limit, t * limit, 2.0 * t', t, limit);
  }

  /** All terms from one on together are at most twice that one. */
  lemma {:induction false} TailBound(kind: Kind, first: nat, x: nat, unit: nat, exact: real, n: nat, m: nat)
    requires Argument(kind, first, x, unit, exact) && 0 < n <= m
    ensures Abs(PartialSum(kind, first as real, exact, m) - PartialSum(kind, first as real, exact, n))
         <= 2.0 * Term(kind, first as real, exact, n) - 2.0 * Term(kind, first as real, exact, m)
  {
    if n < m {
      hide Term, PartialSum, Argument;
      TailBound(kind, first, x, unit, exact, n, m - 1);
      SumStep(kind, first as real, exact, m - 1);
      TermHalves(kind, first, x, unit, exact, m - 1);
    }
  }

  /** Once a computed term is zero, the computed sum is near every later partial sum. */
  lemma {:induction false} SumWithin(kind: Kind, first: nat, x: nat, unit: nat, exact: real, n: nat, m: nat)
    requires Argument(kind, first, x, unit, exact) && 0 < n <= m && FixedTerm(kind, first, x, unit, n) == 0
    ensures Abs(PartialSum(kind, first as real, exact, m) - FixedSum(kind, first, x, unit, n) as real)
         <= 2.0 * n as real + 4.0
  {
    hide Term, FixedTerm, PartialSum, FixedSum, Argument;
    SumError(kind, first, x, unit, exact, n);
    TermError(kind, first, x, unit, exact, n);
    TailBound(kind, first, x, unit, exact, n, m);
    TermBound(kind, first, x, unit, exact, m);
  }

  /** A value is within an error of every partial sum of more than `terms` terms, and so of their
      limit. */
  ghost predicate SumsWithin(kind: Kind, first: real, x: real, value: real, terms: nat, error: real)
  {
    forall m: nat :: terms < m ==> Abs(value - PartialSum(kind, first, x, m)) <= error
  }

  lemma {:induction false} AllSumsWithin(kind: Kind, first: nat, x: nat, unit: nat, exact: real, n: nat, terms: nat,
      start: real, value: real)
    requires Argument(kind, first, x, unit, exact) && 0 < unit && 0 < n <= terms + 1
    requires FixedTerm(kind, first, x, unit, n) == 0
    requires start == first as real && value == FixedSum(kind, first, x, unit, n) as real
    ensures SumsWithin(kind, start, exact, value, terms, 6.0 + 2.0 * terms as real)
  {
    hide PartialSum, FixedSum, FixedTerm, Argument;
    forall m: nat | terms < m
      ensures Abs(value - PartialSum(kind, start, exact, m)) <= 6.0 + 2.0 * terms as real
    {
      SumWithin(kind, first, x, unit, exact, n, m);
    }
  }

  // ----- Computed terms shrink --------------------------------------------------------------------

  lemma {:induction false} FixedHalves(kind: Kind, first: nat, x: nat, unit: nat, exact: real, k: nat)
    requires Argument(kind, first, x, unit, exact) && 0 < k
    ensures 2 * FixedTerm(kind, first, x, unit, k + 1) <= FixedTerm(kind, first, x, unit, k)
  {
    hide FixedTerm, Divisor, Term;
    ArgumentLimit(kind, first, x, unit, exact);
    FixedIs(kind, first, x, unit, k + 1);
    DivisorGrows(kind, k + 1);
    HalveFixed(FixedTerm(kind, first, x, unit, k), x, unit, Divisor(kind, k + 1), if kind == EXP then 2 else 6);
  }

  lemma {:induction false} ArgumentLimit(kind: Kind, first: nat, x: nat, unit: nat, exact: real)
    requires Argument(kind, first, x, unit, exact)
    ensures 0 < unit && 2 * x <= (if kind == EXP then 2 else 6) * unit
  {
    LimitAt(x as real, exact, unit as real, if kind == EXP then 1.0 else 2.56);
  }

  lemma {:induction false} LimitAt(x: real, exact: real, u: real, limit: real)
    requires x <= exact * u && exact <= limit && 0.0 <= u
    ensures x <= limit * u
  {
    RMulMono(exact, limit, u);
  }

  lemma {:induction false} HalveFixed(c: int, x: nat, unit: nat, d: nat, least: nat)
    requires 0 <= c && 0 < unit && 2 * x <= least * unit && 0 < least <= d
    ensures 2 * (c * x / unit / d) <= c
  {
    MulMono(0, c, x);
    DivDiv(c * x, unit, d);
    var f := c * x / (unit * d);
    assert f * (unit * d) <= c * x;
    HalveStep(f, c, x, unit, d, least);
  }

  lemma {:induction false} HalveStep(f: int, c: int, x: nat, unit: nat, d: nat, least: nat)
    requires 0 <= f && 0 <= c && 0 < unit && 2 * x <= least * unit && 0 < least <= d && f * (unit * d) <= c * x
    ensures 2 * f <= c
  {
    var n := unit * least;
    MulMono(least, d, unit);
    MulMono(n, unit * d, f);
    MulMono(2 * x, n, c);
    MulStrict(0, unit, least);
    assert (2 * f) * n <= c * n by {
      assert (2 * f) * n == 2 * (n * f);
      assert 2 * x * c == 2 * (c * x);
    }
    MulCancel(2 * f, c, n);
  }

  /** The number of terms grows no faster than the precision. */
  lemma {:induction false} FixedVanishes(kind: Kind, first: nat, x: nat, unit: nat, exact: real, k: nat)
    requires Argument(kind, first, x, unit, exact) && 0 < k
    ensures FixedTerm(kind, first, x, unit, k) * P2(k - 1) <= 2 * unit
  {
    hide FixedTerm, P2, Pow;
    if k == 1 {
      P2Zero();
      FixedAtMost(kind, first, x, unit, exact, 1);
    } else {
      FixedVanishes(kind, first, x, unit, exact, k - 1);
      FixedHalves(kind, first, x, unit, exact, k - 1);
      P2Step(k - 2);
      MulMono(2 * FixedTerm(kind, first, x, unit, k), FixedTerm(kind, first, x, unit, k - 1), P2(k - 2));
    }
  }

  lemma {:induction false} FixedAtMost(kind: Kind, first: nat, x: nat, unit: nat, exact: real, k: nat)
    requires Argument(kind, first, x, unit, exact)
    ensures FixedTerm(kind, first, x, unit, k) <= 2 * unit
  {
    hide FixedTerm, Term, Argument;
    ArgumentRange(kind, first, x, unit, exact);
    TermError(kind, first, x, unit, exact, k);
    TermBound(kind, first, x, unit, exact, k);
  }

  lemma {:induction false} TermCount(kind: Kind, first: nat, x: nat, precision: nat, exact: real, k: nat)
    requires Argument(kind, first, x, P2(precision), exact) && FixedTerm(kind, first, x, P2(precision), k) > 0
    ensures k <= precision + 2
  {
    if k > precision + 2 {
      hide FixedTerm, P2, Pow, Argument;
      FixedVanishes(kind, first, x, P2(precision), exact, k);
      P2Step(precision);
      P2Strict(precision + 1, k - 1);
      MulMono(1, FixedTerm(kind, first, x, P2(precision), k), P2(k - 1));
    }
  }

  // ----- The exponential --------------------------------------------------------------------------

  /** `e^r` for `r` in [0, 1], with the number of terms added after the first. Of the budget of
      `64 + 8 terms` units this leaves most to the error of `r` itself. */
  method ExpSeries(r: nat, precision: nat) returns (total: nat, terms: nat)
    requires r <= P2(precision)
    ensures terms <= precision + 2
    ensures SumsWithin(EXP, P2(precision) as real, r as real / P2(precision) as real, total as real, terms,
                       6.0 + 2.0 * terms as real)
  {
    hide P2, Pow, FixedTerm, FixedSum, Argument, PartialSum, Divisor;
    var unit := P2(precision);
    ghost var exact := ExpArgument(r, unit);
    total := unit;
    var term := unit;
    terms := 0;
    FirstFixed(EXP, unit, r, unit);
    FixedSumStep(EXP, unit, r, unit, 0);
    var n := 1;
    while true
      invariant n == terms + 1 && term == FixedTerm(EXP, unit, r, unit, n - 1) && total == FixedSum(EXP, unit, r, unit, n)
      invariant terms <= precision + 2 && (1 < n ==> 0 < term)
      decreases if n == 1 then 1 else 0, term
    {
      ExpTermStep(r, unit, n, term);
      if n > 1 { FixedHalves(EXP, unit, r, unit, exact, n - 1); }
      term := term * r / unit / n;
      if term == 0 { break; }
      FixedSumStep(EXP, unit, r, unit, n);
      TermCount(EXP, unit, r, precision, exact, n);
      total := total + term;
      n, terms := n + 1, terms + 1;
    }
    AllSumsWithin(EXP, unit, r, unit, exact, n, terms, unit as real, total as real);
  }

  lemma {:induction false} ExpTermStep(r: nat, unit: nat, n: nat, term: int)
    requires 0 < unit && 0 < n && term == FixedTerm(EXP, unit, r, unit, n - 1)
    ensures 0 <= term * r / unit / n && term * r / unit / n == FixedTerm(EXP, unit, r, unit, n)
  {
    hide FixedTerm;
    FixedIs(EXP, unit, r, unit, n);
  }

  lemma {:induction false} ExpArgument(r: nat, unit: nat) returns (exact: real)
    requires 0 < unit && r <= unit
    ensures exact == r as real / unit as real && Argument(EXP, unit, r, unit, exact)
  {
    exact := r as real / unit as real;
    DivideBack(r as real, unit as real);
    RMulCancel(exact, 1.0, unit as real);
    RMulCancel(0.0, exact, unit as real);
  }

  // ----- Sine and cosine --------------------------------------------------------------------------

  /** What is left of the added terms, never less than nothing. */
  function Settle(added: nat, removed: nat): nat
  {
    if added >= removed then added - removed else 0
  }

  /** The sums with negative ones counted as zero, as the angles in question have no negative sines or
      cosines. */
  ghost predicate SettledWithin(kind: Kind, first: real, x: real, value: real, terms: nat, error: real)
  {
    forall m: nat :: terms < m ==> Abs(value - AtLeastZero(PartialSum(kind, first, x, m))) <= error
  }

  function AtLeastZero(x: real): real
  {
    if x < 0.0 then 0.0 else x
  }

  lemma {:induction false} SettleWithin(kind: Kind, first: real, x: real, added: nat, removed: nat, terms: nat, error: real)
    requires SumsWithin(kind, first, x, (added - removed) as real, terms, error)
    ensures SettledWithin(kind, first, x, Settle(added, removed) as real, terms, error)
  {
    hide PartialSum;
  }

  /** The exact square of the angle for which the computed one stands. */
  lemma {:induction false} AngleArgument(angle: nat, unit: nat) returns (exact: real)
    requires 0 < unit && 5 * angle <= 8 * unit
    ensures exact == Times(angle as real / unit as real, angle as real / unit as real)
    ensures Argument(SINE, angle, angle * angle / unit, unit, exact)
    ensures Argument(COSINE, unit, angle * angle / unit, unit, exact)
  {
    var a, u := angle as real / unit as real, unit as real;
    exact := a * a;
    DivideBack(angle as real, u);
    MulMono(0, angle, angle);
    QuotientBounds(angle * angle, unit, angle * angle / unit);
    RealMul(angle, angle);
    SquareScaled(a, u, angle as real, (angle * angle / unit) as real);
  }

  lemma {:induction false} SquareScaled(a: real, u: real, angle: real, square: real)
    requires 0.0 < u && a * u == angle && 0.0 <= angle <= 1.6 * u && square * u <= angle * angle < (square + 1.0) * u
    ensures 0.0 <= a <= 1.6 && 0.0 <= a * a <= 2.56 && square <= a * a * u <= square + 1.0
  {
    ScaledOrder(angle, 1.6 * u, a, 1.6, u);
    ScaledOrder(0.0, angle, 0.0, a, u);
    TermTimes(a, a, 1.6, 1.6);
    RMulAssoc(a, u, angle);
    assert angle * angle == (a * a * u) * u by {
      assert angle * angle == (a * u) * (a * u);
    }
    ScaledOrder(square * u, angle * angle, square, a * a * u, u);
    ScaledOrder(angle * angle, (square + 1.0) * u, a * a * u, square + 1.0, u);
  }

  /** One loop of the two series together: what has been added less what has been removed is the sum
      so far. */
  ghost predicate SeriesState(kind: Kind, first: nat, square: nat, unit: nat, k: nat, term: int, added: nat, removed: nat)
    requires 0 < unit && 0 < k
  {
    && term == FixedTerm(kind, first, square, unit, k - 1)
    && added - removed == FixedSum(kind, first, square, unit, k)
  }

  method AddTerm(kind: Kind, ghost first: nat, square: nat, unit: nat, k: nat, term: nat, added: nat, removed: nat,
      ghost exact: real) returns (term': nat, added': nat, removed': nat)
    requires kind != EXP && 0 < unit && 0 < k && Argument(kind, first, square, unit, exact)
    requires SeriesState(kind, first, square, unit, k, term, added, removed)
    ensures SeriesState(kind, first, square, unit, k + 1, term', added', removed')
    ensures 1 < k ==> 2 * term' <= term
  {
    hide FixedTerm, FixedSum, Argument, Divisor;
    FixedIs(kind, first, square, unit, k);
    if k > 1 { FixedHalves(kind, first, square, unit, exact, k - 1); }
    FixedSumStep(kind, first, square, unit, k);
    term' := term * square / unit / Divisor(kind, k);
    added', removed' := added, removed;
    if k % 2 == 1 { removed' := removed + term'; } else { added' := added + term'; }
  }

  /** The sine and cosine of an angle in [0, 8/5], which holds a little more than a right angle. The
      series themselves take up `6 + 2 terms` units of the error, and the rest is for the angle's. */
  method SineCosineOf(angle: nat, precision: nat) returns (sine: nat, cosine: nat, error: nat)
    requires 5 * angle <= 8 * P2(precision)
    ensures 72 <= error <= 64 + 8 * (precision + 3) && error % 8 == 0
    ensures var unit := P2(precision) as real; var a := angle as real / unit; var terms := (error - 64) / 8;
      && SettledWithin(SINE, angle as real, Times(a, a), sine as real, terms, 6.0 + 2.0 * terms as real)
      && SettledWithin(COSINE, unit, Times(a, a), cosine as real, terms, 6.0 + 2.0 * terms as real)
  {
    hide P2, Pow, FixedTerm, FixedSum, Argument, PartialSum, Divisor, SettledWithin, SumsWithin, SeriesState, Times;
    var unit := P2(precision);
    ghost var exact := AngleArgument(angle, unit);
    MulMono(0, angle, angle);
    var square: nat := angle * angle / unit;
    var sineTerm, sineAdded, sineRemoved: nat := angle, angle, 0;
    var cosineTerm, cosineAdded, cosineRemoved: nat := unit, unit, 0;
    SeriesStart(SINE, angle, square, unit);
    SeriesStart(COSINE, unit, square, unit);
    var k := 1;
    while sineTerm != 0 || cosineTerm != 0
      invariant 0 < k <= precision + 4 && (k == 1 ==> 0 < cosineTerm)
      invariant SeriesState(SINE, angle, square, unit, k, sineTerm, sineAdded, sineRemoved)
      invariant SeriesState(COSINE, unit, square, unit, k, cosineTerm, cosineAdded, cosineRemoved)
      decreases if k == 1 then 1 else 0, sineTerm + cosineTerm
    {
      NonzeroTerms(angle, square, precision, exact, k, sineTerm, cosineTerm, sineAdded, sineRemoved, cosineAdded, cosineRemoved);
      cosineTerm, cosineAdded, cosineRemoved :=
        AddTerm(COSINE, unit, square, unit, k, cosineTerm, cosineAdded, cosineRemoved, exact);
      sineTerm, sineAdded, sineRemoved :=
        AddTerm(SINE, angle, square, unit, k, sineTerm, sineAdded, sineRemoved, exact);
      k := k + 1;
    }
    ghost var terms: nat := k - 1;
    SeriesEnd(SINE, angle, square, unit, exact, terms, sineAdded, sineRemoved);
    SeriesEnd(COSINE, unit, square, unit, exact, terms, cosineAdded, cosineRemoved);
    return Settle(sineAdded, sineRemoved), Settle(cosineAdded, cosineRemoved), 64 + 8 * (k - 1);
  }

  lemma {:induction false} SeriesStart(kind: Kind, first: nat, square: nat, unit: nat)
    requires kind != EXP && 0 < unit
    ensures SeriesState(kind, first, square, unit, 1, first, first, 0)
  {
    hide FixedTerm, FixedSum;
    FirstFixed(kind, first, square, unit);
    FixedSumStep(kind, first, square, unit, 0);
  }

  lemma {:induction false} NonzeroTerms(angle: nat, square: nat, precision: nat, exact: real, k: nat, sineTerm: nat, cosineTerm: nat,
      sineAdded: nat, sineRemoved: nat, cosineAdded: nat, cosineRemoved: nat)
    requires Argument(SINE, angle, square, P2(precision), exact) && Argument(COSINE, P2(precision), square, P2(precision), exact)
    requires 0 < k && (sineTerm != 0 || cosineTerm != 0)
    requires SeriesState(SINE, angle, square, P2(precision), k, sineTerm, sineAdded, sineRemoved)
    requires SeriesState(COSINE, P2(precision), square, P2(precision), k, cosineTerm, cosineAdded, cosineRemoved)
    ensures k <= precision + 3
  {
    hide P2, Pow, FixedTerm, FixedSum, Argument;
    if sineTerm != 0 { TermCount(SINE, angle, square, precision, exact, k - 1); }
    if cosineTerm != 0 { TermCount(COSINE, P2(precision), square, precision, exact, k - 1); }
  }

  lemma {:induction false} SeriesEnd(kind: Kind, first: nat, square: nat, unit: nat, exact: real, terms: nat, added: nat, removed: nat)
    requires kind != EXP && 0 < unit && 0 < terms && Argument(kind, first, square, unit, exact)
    requires SeriesState(kind, first, square, unit, terms + 1, 0, added, removed)
    ensures SettledWithin(kind, first as real, exact, Settle(added, removed) as real, terms, 6.0 + 2.0 * terms as real)
  {
    hide FixedTerm, FixedSum, Argument, SettledWithin, SumsWithin;
    FixedSumStep(kind, first, square, unit, terms);
    AllSumsWithin(kind, first, square, unit, exact, terms, terms, first as real, (added - removed) as real);
    SettleWithin(kind, first as real, exact, added, removed, terms, 6.0 + 2.0 * terms as real);
  }
}
