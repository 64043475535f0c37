/** Operations whose results need no rounding, the order of patterns, and truncation to integers. */
module ExactOps {
  import opened Powers
  import opened Limbs
  import opened Formats
  import opened Rounding
  import opened FloatOps

  // ----- Remainder --------------------------------------------------------------------------------

  lemma {:induction false} RealQuotientUnique(x: real, d: real, q: int, r: real, q': int, r': real, a: real, b: real)
    requires 0.0 <= r < d && 0.0 <= r' < d && a == Times(q as real, d) && b == Times(q' as real, d)
    requires x == a + r && x == b + r'
    ensures q == q' && r == r'
  {
    hide Times;
    if q < q' { LaterMultiple(q as real, q' as real, d); }
    if q' < q { LaterMultiple(q' as real, q as real, d); }
  }

  lemma {:induction false} LaterMultiple(q: real, q': real, d: real)
    requires q + 1.0 <= q' && 0.0 <= d
    ensures Times(q, d) + d <= Times(q', d)
  {
    RDistribute(q, 1.0, d);
    RMulMono(q + 1.0, q', d);
  }

  /** Remainders are the same whatever the common exponent they are taken at. */
  lemma {:induction false} RemainderAt(n: nat, d: nat, e: int, q: nat, r: nat)
    requires 0 < d && n == q * d + r && r < d
    ensures Val(n, e) == q as real * Val(d, e) + Val(r, e) && Val(r, e) < Val(d, e)
  {
    hide RPow, Two, Val;
    var u := Two(e);
    ValUnits(n, e, u);
    ValUnits(d, e, u);
    ValUnits(r, e, u);
    RealMul(q, d);
    RMulAssoc(q as real, d as real, u);
    RDistribute((q * d) as real, -(r as real), u);
    RMulStrict(r as real, d as real, u);
  }

  /** The remainder of two values of a format is a value of that format. */
  lemma {:induction false} RemainderInFormat(f: Format, m: nat, k: int, n: nat, j: int)
    returns (q: nat, r: nat, i: int)
    requires InFormat(f, m, k) && InFormat(f, n, j) && 0 < n
    ensures InFormat(f, r, i) && Val(r, i) < Val(n, j) && Val(m, k) == q as real * Val(n, j) + Val(r, i)
  {
    hide RPow, Pow, P2, Two, Val;
    i := if k < j then k else j;
    var M, N := m * P2(k - i), n * P2(j - i);
    ValShift(m, i, k - i);
    ValShift(n, i, j - i);
    MulStrict(0, n, P2(j - i));
    q, r := QuotientAndRest(M, N);
    RemainderAt(M, N, i, q, r);
    P2Zero();
    if k == i { MulMono(0, q, N); }
  }

  /** The remainder of values of a format is exact: `|a| = q |b| + |r|` with `|r| < |b|`, under the
      sign of `a`, and its final rounding changes nothing. */
  lemma {:induction false} RemainderTruncCorrect(a: nat, b: nat, f: Format) returns (q: nat)
    requires IsValueOf(f, a) && IsValueOf(f, b) && !IsZero(b)
    ensures var r := RemainderTrunc(a, b, f);
      && IsFinite(r) && Negative(r) == Negative(a)
      && Magnitude(a) == q as real * Magnitude(b) + Magnitude(r) && Magnitude(r) < Magnitude(b)
  {
    hide RPow, Pow, P2, Two, Val, RoundExact, CorrectlyRounded, Zero;
    var l, r := Unpack(a), Unpack(b);
    UnpackCanonical(a);
    UnpackCanonical(b);
    NotFiniteExcluded(a);
    NotFiniteExcluded(b);
    if IsZero(a) {
      q := 0;
      ZeroTimes(Magnitude(b));
    } else {
      var m, k :| InFormat(f, m, k) && Magnitude(a) == Val(m, k);
      var n, j :| InFormat(f, n, j) && Magnitude(b) == Val(n, j);
      ZeroValue(j);
      var rest, i;
      q, rest, i := RemainderInFormat(f, m, k, n, j);
      RemainderPattern(a, b, f, q, rest, i);
    }
  }

  /** The other operands: what has no remainder is NaN, and what nothing can be taken from is itself. */
  lemma {:induction false} RemainderSpecial(a: nat, b: nat, f: Format)
    requires a < B128 && b < B128 && (!IsFinite(a) || !IsFinite(b) || IsZero(a) || IsZero(b))
    ensures IsNan(RemainderTrunc(a, b, f)) <==> IsNan(a) || IsNan(b) || IsInfinite(a) || IsZero(b)
    ensures IsNan(RemainderTrunc(a, b, f)) ==> RemainderTrunc(a, b, f) == QuietNan()
    ensures !IsNan(RemainderTrunc(a, b, f)) ==> RemainderTrunc(a, b, f) == a
  {
    hide RoundExact;
    QuietNanIsNan();
    if IsZero(a) { ZeroIsFinite(a); }
    if IsZero(b) { ZeroIsFinite(b); }
  }

  lemma {:induction false} ZeroTimes(x: real)
    ensures 0 as real * x == 0.0
  {
  }

  lemma {:induction false} RemainderPattern(a: nat, b: nat, f: Format, q: nat, rest: nat, i: int)
    requires a < B128 && b < B128 && IsFinite(a) && IsFinite(b) && !IsZero(a) && !IsZero(b)
    requires InFormat(f, rest, i) && Val(rest, i) < Magnitude(b)
    requires Magnitude(a) == q as real * Magnitude(b) + Val(rest, i)
    ensures var r := RemainderTrunc(a, b, f);
      IsFinite(r) && Negative(r) == Negative(a) && Magnitude(r) == Val(rest, i)
  {
    hide RPow, Pow, P2, Two, Val, RoundExact, CorrectlyRounded, Zero, RemainderTrunc, InFormat, Negative, IsFinite, IsZero;
    var l, r := Unpack(a), Unpack(b);
    NonzeroSignificand(b);
    var e := if l.exponent < r.exponent then l.exponent else r.exponent;
    var r' := CommonRemainder(l, r, e, q, Val(rest, i), q as real * Magnitude(b));
    RemainderTruncIs(a, b, f, e, r');
    if r' == 0 {
      ZeroPattern(Negative(a));
      ZeroValue(e);
    } else {
      WholeRounded(Negative(a), r', e, f);
      RoundedExact(f, Negative(a), rest, i, RemainderTrunc(a, b, f));
    }
  }

  /** The remainder at the lower of the two exponents is the remainder of the numbers. */
  lemma {:induction false} CommonRemainder(l: Parts, r: Parts, e: int, q: nat, v: real, product: real) returns (rest: nat)
    requires e <= l.exponent && e <= r.exponent && 0 < r.significand && 0.0 <= v < Val(r.significand, r.exponent)
    requires product == Times(q as real, Val(r.significand, r.exponent))
    requires Val(l.significand, l.exponent) == product + v
    ensures 0 < r.significand * P2(r.exponent - e)
    ensures rest == l.significand * P2(l.exponent - e) % (r.significand * P2(r.exponent - e)) && Val(rest, e) == v
  {
    hide RPow, Pow, P2, Two, Val, Times;
    ValShift(l.significand, e, l.exponent - e);
    ValShift(r.significand, e, r.exponent - e);
    MulStrict(0, r.significand, P2(r.exponent - e));
    rest := RemainderOf(l.significand * P2(l.exponent - e), r.significand * P2(r.exponent - e), e, q, v, product);
  }

  lemma {:induction false} RemainderOf(n: nat, d: nat, e: int, q: nat, v: real, product: real) returns (rest: nat)
    requires 0 < d && 0.0 <= v < Val(d, e) && product == Times(q as real, Val(d, e)) && Val(n, e) == product + v
    ensures rest == n % d && Val(rest, e) == v
  {
    hide RPow, Pow, P2, Two, Val;
    var q';
    q', rest := QuotientAndRest(n, d);
    DivModUnique(n, d, q', rest);
    RemainderAt(n, d, e, q', rest);
    RealQuotientUnique(Val(n, e), Val(d, e), q, v, q', Val(rest, e), product, q' as real * Val(d, e));
  }

  lemma {:induction false} RemainderTruncIs(a: nat, b: nat, f: Format, e: int, rest: nat)
    requires a < B128 && b < B128 && IsFinite(a) && IsFinite(b) && !IsZero(a) && !IsZero(b)
    requires var l, r := Unpack(a), Unpack(b);
      && e == (if l.exponent < r.exponent then l.exponent else r.exponent)
      && 0 < r.significand * P2(r.exponent - e)
      && rest == l.significand * P2(l.exponent - e) % (r.significand * P2(r.exponent - e))
    ensures RemainderTrunc(a, b, f) == if rest == 0 then Zero(Negative(a)) else RoundExact(Negative(a), rest, e, false, f)
  {
    hide Pow, P2, RoundExact, Zero, IsFinite, IsZero, IsNan, IsInfinite, Unpack, Negative;
    NotFiniteExcluded(a);
    NotFiniteExcluded(b);
  }

  // ----- Truncation, floor and ceiling ------------------------------------------------------------

  function Trunc(bits: nat): nat
    requires bits < B128
  {
    if !IsFinite(bits) || IsZero(bits) then bits
    else
      var v := Unpack(bits);
      if v.exponent >= 0 then bits
      else if v.exponent <= -(FRACTION_BITS + 1) then Zero(v.negative)
      else
        ShiftedFits(bits);
        ExactQuad(v.negative, v.significand / P2(-v.exponent), 0)
  }

  lemma {:induction false} ShiftedFits(bits: nat)
    requires bits < B128 && IsFinite(bits) && Unpack(bits).exponent < 0
    ensures 0 <= Unpack(bits).significand / P2(-Unpack(bits).exponent) < P2(112)
    ensures FitsQuad(Unpack(bits).significand / P2(-Unpack(bits).exponent), 0)
  {
    hide Pow, P2;
    UnpackCanonical(bits);
    var m, d: nat := Unpack(bits).significand, -Unpack(bits).exponent;
    DivNonnegative(m, P2(d));
    P2Step(112);
    P2One();
    P2Mono(1, d);
    MulMono(2, P2(d), P2(112));
    DivBelow(m, P2(d), P2(112));
    BitLengthAtMost(m / P2(d), 112);
  }

  /** Truncation keeps the sign and the integer part of every finite value. */
  lemma {:induction false} TruncCorrect(bits: nat) returns (n: nat)
    requires bits < B128 && IsFinite(bits)
    ensures Trunc(bits) < B128 && IsFinite(Trunc(bits)) && Negative(Trunc(bits)) == Negative(bits)
    ensures Magnitude(Trunc(bits)) == n as real && n as real <= Magnitude(bits) < (n + 1) as real
    ensures Trunc(bits) != bits ==> n < P2(112)
  {
    hide RPow, Pow, P2, Two, Val, ExactQuad, Zero, Pack;
    var v := Unpack(bits);
    UnpackCanonical(bits);
    UnpackSign(bits);
    if IsZero(bits) {
      n := 0;
    } else if v.exponent >= 0 {
      n := v.significand * P2(v.exponent);
      ValShift(v.significand, 0, v.exponent);
      ValWhole(n);
    } else {
      ShiftedFits(bits);
      var d: nat := -v.exponent;
      var r;
      n, r := QuotientAndRest(v.significand, P2(d));
      DivModUnique(v.significand, P2(d), n, r);
      IntegerPart(v.significand, d, n, r);
      if v.exponent <= -(FRACTION_BITS + 1) {
        P2Mono(113, d);
        DivModUnique(v.significand, P2(d), 0, v.significand);
        ZeroPattern(v.negative);
      } else {
        ExactQuadValue(v.negative, n, 0);
        ValWhole(n);
      }
    }
  }

  lemma {:induction false} IntegerPart(m: nat, d: nat, n: nat, r: nat)
    requires m == n * P2(d) + r && r < P2(d)
    ensures n as real <= Val(m, 0 - d) < (n + 1) as real
  {
    hide RPow, Pow, P2, Two, Val;
    ValShift(n, 0 - d, d);
    ValShift(n + 1, 0 - d, d);
    ValWhole(n);
    ValWhole(n + 1);
    assert (n + 1) * P2(d) == n * P2(d) + P2(d);
    ValStrict(m, (n + 1) * P2(d), 0 - d);
    ValStrict(m, n * P2(d), 0 - d);
  }

  predicate IeeeEqual(a: nat, b: nat)
  {
    if IsNan(a) || IsNan(b) then false else (IsZero(a) && IsZero(b)) || a == b
  }

  function One(): nat
  {
    RoundExact(false, 1, 0, false, QUAD)
  }

  function FloorOf(x: nat): nat
    requires x < B128
  {
    if !IsFinite(x) || IsZero(x) then x
    else
      var truncated := Trunc(x);
      if !Negative(x) || IeeeEqual(truncated, x) then truncated
      else OneIsOne(); Subtract(truncated, One(), QUAD)
  }

  lemma {:induction false} FloorPattern(x: nat)
    requires x < B128
    ensures FloorOf(x) < B128
  {
    if IsFinite(x) { var n := FloorCorrect(x); }
  }

  function CeilOf(x: nat): nat
    requires x < B128
  {
    hide *;
    NegateFlips(x);
    FloorPattern(Negate(x));
    Negate(FloorOf(Negate(x)))
  }

  lemma {:induction false} OneIsOne()
    ensures One() < B128 && IsFinite(One()) && !Negative(One()) && Magnitude(One()) == 1.0
  {
    hide RPow, Pow, P2, Two, Val, RoundExact, CorrectlyRounded;
    WholeRounded(false, 1, 0, QUAD);
    ValWhole(1);
    P2Strict(0, 113);
    P2Zero();
    RoundedExact(QUAD, false, 1, 0, One());
  }

  /** The floor is exact, and keeps the sign of its argument, that of a zero result included. */
  lemma {:induction false} FloorCorrect(x: nat) returns (n: int)
    requires x < B128 && IsFinite(x)
    ensures FloorOf(x) < B128 && IsFinite(FloorOf(x)) && Negative(FloorOf(x)) == Negative(x)
    ensures Value(FloorOf(x)) == n as real && n as real <= Value(x) < (n + 1) as real
  {
    hide RPow, Pow, P2, Two, Val, Trunc, Subtract, One, CorrectlyRounded, Magnitude;
    UnpackCanonical(x);
    if IsZero(x) {
      n := 0;
    } else {
      var whole: int := TruncCorrect(x);
      var truncated := Trunc(x);
      UnpackCanonical(truncated);
      NotFiniteExcluded(x);
      NotFiniteExcluded(truncated);
      if !Negative(x) {
        n := whole;
      } else if IeeeEqual(truncated, x) {
        n := -whole;
      } else {
        n := -whole - 1;
        if Magnitude(truncated) == Magnitude(x) { FiniteUnique(truncated, x); }
        OneIsOne();
        SubtractCorrect(truncated, One(), QUAD);
        ValWhole(whole + 1);
        QuadConstants();
        P2Strict(112, 113);
        RoundedExact(QUAD, true, whole + 1, 0, Subtract(truncated, One(), QUAD));
      }
    }
  }

  /** The ceiling likewise. */
  lemma {:induction false} CeilCorrect(x: nat) returns (n: int)
    requires x < B128 && IsFinite(x)
    ensures CeilOf(x) < B128 && IsFinite(CeilOf(x)) && Negative(CeilOf(x)) == Negative(x)
    ensures Value(CeilOf(x)) == n as real && (n - 1) as real < Value(x) <= n as real
  {
    hide RPow, Pow, P2, Two, Val, FloorOf, Magnitude, Negate;
    NegateFlips(x);
    FloorPattern(Negate(x));
    var m := FloorCorrect(Negate(x));
    NegateFlips(FloorOf(Negate(x)));
    n := -m;
  }

  /** Infinities and NaN come back as they are. */
  lemma {:induction false} IntegralSpecial(x: nat)
    requires x < B128 && !IsFinite(x)
    ensures Trunc(x) == x && FloorOf(x) == x && CeilOf(x) == x
  {
    NegateFlips(x);
    NegateFlips(Negate(x));
  }

  // ----- Order ------------------------------------------------------------------------------------

  datatype PartialOrdering = Less | Equivalent | Greater | Unordered

  function Compare(a: nat, b: nat): PartialOrdering
  {
    if IsNan(a) || IsNan(b) then Unordered
    else if IsZero(a) && IsZero(b) then Equivalent
    else if Negative(a) != Negative(b) then if Negative(a) then Less else Greater
    else
      var magnitude, other := a % SIGN_BIT, b % SIGN_BIT;
      if magnitude == other then Equivalent
      else if (magnitude < other) != Negative(a) then Less else Greater
  }

  /** The bits below the sign are ordered like the magnitudes they stand for. */
  lemma {:induction false} MagnitudeOrder(a: nat, b: nat)
    requires a < B128 && b < B128 && IsFinite(a) && IsFinite(b) && a % SIGN_BIT < b % SIGN_BIT
    ensures Magnitude(a) < Magnitude(b)
  {
    hide RPow, Pow, P2, Two, Val;
    var u, v := Unpack(a), Unpack(b);
    UnpackCanonical(a);
    UnpackCanonical(b);
    MagnitudeBits(a);
    MagnitudeBits(b);
    if u.exponent < v.exponent {
      CanonicalOrder(QUAD, v.significand, v.exponent, u.significand, u.exponent);
    } else {
      ValStrict(u.significand, v.significand, v.exponent);
    }
  }

  lemma {:induction false} MagnitudeBits(bits: nat)
    requires bits < B128
    ensures bits % SIGN_BIT == BiasedExponent(bits) * FRACTION + Fraction(bits) && Fraction(bits) < FRACTION
  {
  }

  /** Comparison of finite patterns is comparison of the numbers, so `-0` equals `+0`. */
  /** NaN has no order and infinities are outermost; equality is equivalence in that order. */
  lemma {:induction false} CompareSpecial(a: nat, b: nat)
    requires a < B128 && b < B128
    ensures Compare(a, b) == Unordered <==> IsNan(a) || IsNan(b)
    ensures !IsNan(a) && !IsNan(b) && (IsInfinite(a) || IsInfinite(b)) ==>
              Compare(a, b) == if IsInfinite(a) && IsInfinite(b) && Negative(a) == Negative(b) then Equivalent
                               else if IsInfinite(a) then if Negative(a) then Less else Greater
                               else if Negative(b) then Greater else Less
    ensures IeeeEqual(a, b) <==> Compare(a, b) == Equivalent
  {
    hide Pack;
    PatternParts(a);
    PatternParts(b);
  }

  lemma {:induction false} PatternParts(x: nat)
    requires x < B128
    ensures x == (if Negative(x) then SIGN_BIT else 0) + x % SIGN_BIT
    ensures x % SIGN_BIT == BiasedExponent(x) * FRACTION + Fraction(x) && BiasedExponent(x) <= EXPONENT_MASK
    ensures Fraction(x) < FRACTION
  {
  }

  lemma {:induction false} CompareCorrect(a: nat, b: nat)
    requires a < B128 && b < B128 && IsFinite(a) && IsFinite(b)
    ensures Compare(a, b) == if Value(a) < Value(b) then Less
                             else if Value(a) == Value(b) then Equivalent else Greater
    ensures IeeeEqual(a, b) <==> Value(a) == Value(b)
  {
    hide RPow, Pow, P2, Two, Val, Magnitude;
    UnpackCanonical(a);
    UnpackCanonical(b);
    NotFiniteExcluded(a);
    NotFiniteExcluded(b);
    var m, n := a % SIGN_BIT, b % SIGN_BIT;
    if m < n {
      MagnitudeOrder(a, b);
    } else if n < m {
      MagnitudeOrder(b, a);
    } else {
      SameBits(a, b);
    }
  }

  lemma {:induction false} SameBits(a: nat, b: nat)
    requires a < B128 && b < B128 && a % SIGN_BIT == b % SIGN_BIT
    ensures Magnitude(a) == Magnitude(b)
    ensures Negative(a) == Negative(b) ==> a == b
  {
    hide RPow, Pow, Val;
    MagnitudeBits(a);
    MagnitudeBits(b);
  }
}
