/** The numbers that round to a given value, and why only two decimals of each length can be the
    shortest of them. */
module Shortest {
  import opened Powers
  import opened Limbs
  import opened Formats
  import opened Rounding

  // ----- The interval around a value --------------------------------------------------------------

  /** Half the distance to the next value down, in quarters of the last place: two as a
      rule, and one below a power of two, where the format is finer. */
  function LowerGap(f: Format, n: nat, j: int): (gap: nat)
    ensures 1 <= gap <= 2
  {
    if n == P2(Precision(f) - 1) && j > Quantum(f) then 1 else 2
  }

  function Low(f: Format, n: nat, j: int): real
    requires 0 < n
  {
    Val(4 * n - LowerGap(f, n, j), j - 2)
  }

  function High(n: nat, j: int): real
  {
    Val(4 * n + 2, j - 2)
  }

  /** Between the midpoints to the neighbouring values; on a midpoint the even significand wins. */
  predicate Inside(f: Format, n: nat, j: int, x: real)
    requires 0 < n
  {
    Low(f, n, j) <= x <= High(n, j) && (x == Low(f, n, j) || x == High(n, j) ==> n % 2 == 0)
  }

  lemma {:induction false} Quarters(n: nat, j: int)
    ensures Val(n, j) == Val(4 * n, j - 2)
  {
    hide Val, P2, Pow, Two;
    ValShift(n, j - 2, 2);
    P2Zero();
    P2Step(0);
    P2Step(1);
    assert P2(2) == 4;
  }

  /** The next value up, a quarter at a time. */
  lemma {:induction false} AboveAll(f: Format, n: nat, j: int, m: nat, i: int)
    requires Canonical(f, n, j) && Canonical(f, m, i) && Val(n, j) < Val(m, i)
    ensures Val(n + 1, j) <= Val(m, i)
  {
    hide Val, P2, Pow, Two;
    if i == j {
      ValStrict(n, m, j);
      if n + 1 < m { ValStrict(n + 1, m, j); }
    } else if i < j {
      CanonicalOrder(f, n, j, m, i);
    } else {
      var p := Precision(f);
      ValPower(p, j);
      ValPower(p - 1, i);
      if n + 1 < P2(p) { ValStrict(n + 1, P2(p), j); }
      if P2(p - 1) < m { ValStrict(P2(p - 1), m, i); }
      TwoMono(j + p, i + p - 1);
    }
  }

  /** The next value down. */
  lemma {:induction false} BelowAll(f: Format, n: nat, j: int, m: nat, i: int)
    requires Canonical(f, n, j) && Canonical(f, m, i) && Val(m, i) < Val(n, j)
    ensures LowerGap(f, n, j) == 2 ==> 0 < n && Val(m, i) <= Val(n - 1, j)
    ensures LowerGap(f, n, j) == 1 ==> Val(m, i) <= Val(2 * n - 1, j - 1)
  {
    hide Val, P2, Pow, Two;
    var p := Precision(f);
    if i > j {
      CanonicalOrder(f, m, i, n, j);
    } else if i == j {
      ValStrict(m, n, j);
      if m < n - 1 { ValStrict(m, n - 1, j); }
      if LowerGap(f, n, j) == 1 { HalvedBelow(n, j); }
    } else {
      ValPower(p, i);
      ValStrict(m, P2(p), i);
      TwoMono(i + p, j + p - 1);
      ValPower(p - 1, j);
      if LowerGap(f, n, j) == 2 {
        if P2(p - 1) < n - 1 { ValStrict(P2(p - 1), n - 1, j); }
      } else {
        P2Step(p - 1);
        FullBelow(m, i, 2 * n, j - 1);
      }
    }
  }

  lemma {:induction false} HalvedBelow(n: nat, j: int)
    requires 0 < n
    ensures Val(n - 1, j) <= Val(2 * n - 1, j - 1)
  {
    hide Val, P2, Pow, Two;
    ValShift(n - 1, j - 1, 1);
    P2Zero();
    P2Step(0);
    assert P2(1) == 2;
    ValStrict(2 * n - 2, 2 * n - 1, j - 1);
  }

  lemma {:induction false} FullBelow(m: nat, i: int, limit: nat, k: int)
    requires m < limit && i <= k
    ensures Val(m, i) <= Val(limit - 1, k)
  {
    hide P2, Pow, Two, Val;
    ScaleUp(m, i, k);
    if m < limit - 1 { ValStrict(m, limit - 1, k); }
  }

  /** Every value of the format is the given one or lies past one of its neighbours. */
  lemma {:induction false} Neighbours(f: Format, n: nat, j: int, m: nat, i: int, v: real, c: real, g: real)
    requires Canonical(f, n, j) && 0 < n && InFormat(f, m, i)
    requires v == Two(j - 2) && c == (4 * n) as real * v && g == LowerGap(f, n, j) as real * v
    ensures Val(m, i) == c || Val(m, i) <= c - 2.0 * g || Val(m, i) >= c + 4.0 * v
  {
    hide Val, P2, Pow, Two;
    var m', i' := Canonicalize(f, m, i);
    InQuarters(n, j, v);
    InQuarters(n + 1, j, v);
    InQuarters(n - 1, j, v);
    HalfPlace(2 * n - 1, j);
    ValUnits(4 * n - 2, j - 2, v);
    assert (4 * n - 2) as real * v == (4 * n) as real * v - 2.0 * v;
    if Val(m, i) > Val(n, j) {
      AboveAll(f, n, j, m', i');
    } else if Val(m, i) < Val(n, j) {
      BelowAll(f, n, j, m', i');
      if LowerGap(f, n, j) == 2 { assert 2 as real * v == 2.0 * v; } else { assert 1 as real * v == v; }
    }
  }

  lemma {:induction false} InQuarters(n: nat, j: int, v: real)
    requires v == Two(j - 2)
    ensures Val(n, j) == (4 * n) as real * v == 4.0 * (n as real * v)
  {
    hide Val, P2, Pow, Two;
    Quarters(n, j);
    ValUnits(4 * n, j - 2, v);
  }

  lemma {:induction false} HalfPlace(m: nat, j: int)
    ensures Val(m, j - 1) == Val(2 * m, j - 2)
  {
    hide Val, P2, Pow, Two;
    ValShift(m, j - 2, 1);
    P2Zero();
    P2Step(0);
    assert P2(1) == 2;
  }

  /** The neighbour below is a value of the format. */
  lemma {:induction false} LowerNeighbour(f: Format, n: nat, j: int, v: real, c: real, g: real) returns (m: nat, i: int)
    requires Canonical(f, n, j) && 0 < n
    requires v == Two(j - 2) && c == (4 * n) as real * v && g == LowerGap(f, n, j) as real * v
    ensures InFormat(f, m, i) && Val(m, i) == c - 2.0 * g
  {
    hide Val, P2, Pow, Two;
    if LowerGap(f, n, j) == 2 {
      m, i := n - 1, j;
      Quarters(m, j);
      ValUnits(4 * m, j - 2, v);
    } else {
      m, i := 2 * n - 1, j - 1;
      P2Step(Precision(f) - 1);
      HalfPlace(m, j);
      ValUnits(2 * m, j - 2, v);
    }
  }

  /** The neighbour above is one too, or the upper midpoint is where rounding overflows. */
  lemma {:induction false} UpperNeighbour(f: Format, n: nat, j: int, v: real, c: real) returns (m: nat, i: int)
    requires Canonical(f, n, j) && v == Two(j - 2) && c == (4 * n) as real * v
    ensures (InFormat(f, m, i) && Val(m, i) == c + 4.0 * v) || (High(n, j) == Threshold(f) && n % 2 == 1)
  {
    hide Val, P2, Pow, Two;
    m, i := NextValue(f, n, j);
    Quarters(n + 1, j);
    ValUnits(4 * n + 4, j - 2, v);
    if !InFormat(f, m, i) {
      HalfPlace(2 * n + 1, j);
      P2Step(Precision(f) - 1);
    }
  }

  lemma {:induction false} HighBelowThreshold(f: Format, n: nat, j: int)
    requires Canonical(f, n, j)
    ensures High(n, j) <= Threshold(f)
    ensures High(n, j) == Threshold(f) ==> n % 2 == 1
  {
    hide Val, P2, Pow, Two;
    var top, p := TopQuantum(f), Precision(f);
    HalfPlace(2 * n + 1, j);
    P2Step(p - 1);
    var limit := 2 * P2(p) - 1;
    if 2 * n + 1 < limit { ValStrict(2 * n + 1, limit, j - 1); }
    TwoMono(j - 1, top - 1);
    ScaleUp(limit, j - 1, top - 1);
    if 2 * n + 1 < limit {
    } else {
      assert n == P2(p) - 1;
    }
  }

  lemma {:induction false} ScaleUp(m: nat, i: int, k: int)
    requires i <= k
    ensures Val(m, i) <= Val(m, k)
  {
    hide P2, Pow, Two;
    TwoMono(i, k);
    RMulMono(Two(i), Two(k), m as real);
  }

  /** The interval is exactly what rounds to the value. */
  lemma {:induction false} InsideNearest(f: Format, n: nat, j: int, x: real)
    requires Canonical(f, n, j) && 0 < n
    ensures Inside(f, n, j, x) <==> x < Threshold(f) && IsNearest(f, x, n, j)
  {
    hide Val, P2, Pow, Two, Low, High, Threshold, IsNearest, LowerGap, Canonical;
    var v := Two(j - 2);
    var c, g := (4 * n) as real * v, LowerGap(f, n, j) as real * v;
    IntervalUnits(f, n, j, v, c, g);
    HighBelowThreshold(f, n, j);
    if Inside(f, n, j, x) { InsideIsNearest(f, n, j, x, v, c, g); }
    if x < Threshold(f) && IsNearest(f, x, n, j) { NearestIsInside(f, n, j, x, v, c, g); }
  }

  lemma {:induction false} InsideIsNearest(f: Format, n: nat, j: int, x: real, v: real, c: real, g: real)
    requires Canonical(f, n, j) && 0 < n && Val(n, j) == c
    requires v == Two(j - 2) && c == (4 * n) as real * v && g == LowerGap(f, n, j) as real * v
    requires c - g <= x <= c + 2.0 * v && (x == c - g || x == c + 2.0 * v ==> n % 2 == 0)
    ensures IsNearest(f, x, n, j)
  {
    hide Val, P2, Pow, Two, LowerGap, Canonical, InFormat;
    assert 0.0 < v;
    assert 0.0 < g by { RMulStrict(0.0, LowerGap(f, n, j) as real, v); }
    forall m: nat, i: int | InFormat(f, m, i)
      ensures NoFarther(x, n, j, m, i)
    {
      Neighbours(f, n, j, m, i, v, c, g);
    }
  }

  lemma {:induction false} NearestIsInside(f: Format, n: nat, j: int, x: real, v: real, c: real, g: real)
    requires Canonical(f, n, j) && 0 < n && Val(n, j) == c && High(n, j) == c + 2.0 * v
    requires v == Two(j - 2) && c == (4 * n) as real * v && g == LowerGap(f, n, j) as real * v
    requires x < Threshold(f) && IsNearest(f, x, n, j)
    ensures c - g <= x <= c + 2.0 * v && (x == c - g || x == c + 2.0 * v ==> n % 2 == 0)
  {
    hide Val, P2, Pow, Two, LowerGap, Canonical, InFormat, High, Threshold;
    assert 0.0 < v;
    assert 0.0 < g by { RMulStrict(0.0, LowerGap(f, n, j) as real, v); }
    var m, i := LowerNeighbour(f, n, j, v, c, g);
    assert NoFarther(x, n, j, m, i);
    m, i := UpperNeighbour(f, n, j, v, c);
    if InFormat(f, m, i) { assert NoFarther(x, n, j, m, i); }
  }

  lemma {:induction false} IntervalUnits(f: Format, n: nat, j: int, v: real, c: real, g: real)
    requires 0 < n
    requires v == Two(j - 2) && c == (4 * n) as real * v && g == LowerGap(f, n, j) as real * v
    ensures Low(f, n, j) == c - g && High(n, j) == c + 2.0 * v && Val(n, j) == c
    ensures 0.0 < Low(f, n, j) < Val(n, j) < High(n, j)
  {
    hide Val, P2, Pow, Two, LowerGap;
    var gap := LowerGap(f, n, j);
    Quarters(n, j);
    ValUnits(4 * n, j - 2, v);
    ValUnits(4 * n - gap, j - 2, v);
    ValUnits(4 * n + 2, j - 2, v);
    RDistribute((4 * n) as real, gap as real, v);
    RMulStrict(0.0, (4 * n - gap) as real, v);
    RMulStrict(0.0, gap as real, v);
  }

  /** In terms of patterns: the numbers inside round to the value, and no others do. */
  lemma {:induction false} InsideRounds(f: Format, n: nat, j: int, x: real, bits: nat)
    requires Canonical(f, n, j) && 0 < n
    requires bits < B128 && IsFinite(bits) && Magnitude(bits) == Val(n, j)
    ensures Inside(f, n, j, x) <==> CorrectlyRounded(f, Negative(bits), x, bits)
  {
    hide Val, P2, Pow, Two, Inside, Threshold, Magnitude;
    InsideNearest(f, n, j, x);
    InfinityNotFinite(Negative(bits));
    if x < Threshold(f) && CorrectlyRounded(f, Negative(bits), x, bits) {
      var m: nat, k: int :| IsNearest(f, x, m, k) && Magnitude(bits) == Val(m, k);
      CanonicalUnique(f, n, j, m, k);
    }
  }

  // ----- The two candidates of each length --------------------------------------------------------

  /** `d * 10^e`. */
  function Tens(d: nat, e: int): real
  {
    d as real * RPow(10, e)
  }

  lemma {:induction false} TensShift(d: nat, e: int, k: nat)
    ensures Tens(d * Pow(10, k), e) == Tens(d, e + k)
  {
    hide RPow, Pow;
    RPowNat(10, k);
    RPowAdd(10, e, k);
    RealMul(d, Pow(10, k));
    RMulAssoc(d as real, Pow(10, k) as real, RPow(10, e));
  }

  lemma {:induction false} TensOrder(d: nat, d': nat, e: int)
    ensures Tens(d, e) <= Tens(d', e) <==> d <= d'
    ensures Tens(d, e) < Tens(d', e) <==> d < d'
  {
    hide RPow;
    RMulCancel(d as real, d' as real, RPow(10, e));
  }

  /** Of the decimals with at most `length` digits, `d` and `d + 1` at the place of the last digit
      are the nearest on either side of a number between them. */
  lemma {:induction false} NothingBetween(x: real, d: nat, q: int, length: nat, s: nat, e: int)
    requires Tens(d, q) < x < Tens(d + 1, q) && 0 < length && Pow(10, length - 1) <= d && s < Pow(10, length)
    ensures Tens(s, e) <= Tens(d, q) || Tens(s, e) >= Tens(d + 1, q)
  {
    hide RPow, Pow, Tens;
    if e >= q {
      TensShift(s, q, e - q);
      TensOrder(s * Pow(10, e - q), d, q);
      TensOrder(d + 1, s * Pow(10, e - q), q);
    } else {
      PowStep(10, length - 1);
      TensShift(1, e, length);
      TensShift(1, q, length - 1);
      assert 1 * Pow(10, length) == Pow(10, length) && 1 * Pow(10, length - 1) == Pow(10, length - 1);
      TensOrder(s, Pow(10, length), e);
      TensOrder(Pow(10, length - 1), d, q);
      TensMono(e + length, q + length - 1);
    }
  }

  lemma {:induction false} TensMono(e: int, e': int)
    requires e <= e'
    ensures Tens(1, e) <= Tens(1, e')
  {
    hide RPow;
    RPowMono(10, e, e');
  }

  /** The interval has no holes around its value. */
  lemma {:induction false} InsideConvex(f: Format, n: nat, j: int, x: real, y: real)
    requires 0 < n && Inside(f, n, j, x) && (x <= y <= Val(n, j) || Val(n, j) <= y <= x)
    ensures Inside(f, n, j, y)
  {
    hide Val, Two, LowerGap, Low, High;
    var v := Two(j - 2);
    IntervalUnits(f, n, j, v, (4 * n) as real * v, LowerGap(f, n, j) as real * v);
  }

  /** If any decimal of at most `length` digits rounds to a value, one of the two candidates does,
      on the same side of the value and no farther from it. */
  lemma {:induction false} CandidatesSuffice(f: Format, n: nat, j: int, d: nat, q: int, length: nat, s: nat, e: int)
    requires 0 < n && Tens(d, q) < Val(n, j) < Tens(d + 1, q) && 0 < length && Pow(10, length - 1) <= d
    requires s < Pow(10, length) && Inside(f, n, j, Tens(s, e))
    ensures || (Tens(s, e) <= Tens(d, q) && Inside(f, n, j, Tens(d, q)))
            || (Tens(s, e) >= Tens(d + 1, q) && Inside(f, n, j, Tens(d + 1, q)))
  {
    hide Val, Pow, RPow, Tens, Inside;
    NothingBetween(Val(n, j), d, q, length, s, e);
    if Tens(s, e) <= Tens(d, q) {
      InsideConvex(f, n, j, Tens(s, e), Tens(d, q));
    } else {
      InsideConvex(f, n, j, Tens(s, e), Tens(d + 1, q));
    }
  }
}
