/** Arithmetic on binary128 patterns: every operation is exact in integers and rounds once, into
    the format asked for. */
module FloatOps {
  import opened Powers
  import opened Limbs
  import opened Formats
  import opened Rounding

  // ----- The code -------------------------------------------------------------------------------

  function RoundToFormat(bits: nat, f: Format): nat
  {
    if f == QUAD || !IsFinite(bits) || IsZero(bits) then bits
    else
      var v := Unpack(bits);
      RoundExact(v.negative, v.significand, v.exponent, false, f)
  }

  /** The exact sum of two signed terms, brought to the lower exponent, rounded once. */
  function AddExact(lhsNegative: bool, lhs: nat, lhsExponent: int,
                    rhsNegative: bool, rhs: nat, rhsExponent: int, f: Format): nat
  {
    var common := if lhsExponent < rhsExponent then lhsExponent else rhsExponent;
    var l := lhs * P2(lhsExponent - common);
    var r := rhs * P2(rhsExponent - common);
    if lhsNegative == rhsNegative then RoundExact(lhsNegative, l + r, common, false, f)
    else if l == r then Zero(false)
    else if l > r then RoundExact(lhsNegative, l - r, common, false, f)
    else RoundExact(rhsNegative, r - l, common, false, f)
  }

  function Add(lhs: nat, rhs: nat, f: Format): nat
  {
    if IsNan(lhs) || IsNan(rhs) then QuietNan()
    else if IsInfinite(lhs) || IsInfinite(rhs) then
      if IsInfinite(lhs) && IsInfinite(rhs) && Negative(lhs) != Negative(rhs) then QuietNan()
      else if IsInfinite(lhs) then lhs else rhs
    else if IsZero(lhs) && IsZero(rhs) then Zero(Negative(lhs) && Negative(rhs))
    else
      var l, r := Unpack(lhs), Unpack(rhs);
      AddExact(l.negative, l.significand, l.exponent, r.negative, r.significand, r.exponent, f)
  }

  function Subtract(lhs: nat, rhs: nat, f: Format): nat
    requires rhs < B128
  {
    Add(lhs, Negate(rhs), f)
  }

  function Multiply(lhs: nat, rhs: nat, f: Format): nat
  {
    var negative := Negative(lhs) != Negative(rhs);
    if IsNan(lhs) || IsNan(rhs) then QuietNan()
    else if IsInfinite(lhs) || IsInfinite(rhs) then
      if IsZero(lhs) || IsZero(rhs) then QuietNan() else Infinity(negative)
    else if IsZero(lhs) || IsZero(rhs) then Zero(negative)
    else
      var l, r := Unpack(lhs), Unpack(rhs);
      RoundExact(negative, l.significand * r.significand, l.exponent + r.exponent, false, f)
  }

  /** Enough extra numerator bits that the quotient has a guard bit above the sticky remainder. */
  function QuotientShift(numerator: nat, divisor: nat, f: Format): nat
  {
    var shift := BitLength(divisor) - BitLength(numerator) + Precision(f) + 2;
    if shift < 0 then 0 else shift
  }

  /** The truncated quotient of the widened numerator, with the remainder as sticky bit. */
  function RoundQuotient(negative: bool, numerator: nat, divisor: nat, exponent: int, f: Format): nat
    requires 0 < divisor
  {
    hide Pow, P2, RoundExact;
    var shift := QuotientShift(numerator, divisor, f);
    var widened := numerator * P2(shift);
    DivNonnegative(widened, divisor);
    RoundExact(negative, widened / divisor, exponent - shift, widened % divisor != 0, f)
  }

  function Divide(lhs: nat, rhs: nat, f: Format): nat
    requires lhs < B128 && rhs < B128
  {
    var negative := Negative(lhs) != Negative(rhs);
    if IsNan(lhs) || IsNan(rhs) then QuietNan()
    else if IsInfinite(lhs) then if IsInfinite(rhs) then QuietNan() else Infinity(negative)
    else if IsInfinite(rhs) then Zero(negative)
    else if IsZero(rhs) then if IsZero(lhs) then QuietNan() else Infinity(negative)
    else if IsZero(lhs) then Zero(negative)
    else
      var l, r := Unpack(lhs), Unpack(rhs);
      NonzeroSignificand(rhs);
      RoundQuotient(negative, l.significand, r.significand, l.exponent - r.exponent, f)
  }

  function FusedMultiplyAdd(a: nat, b: nat, c: nat, f: Format): nat
  {
    if IsNan(a) || IsNan(b) || IsNan(c) then QuietNan()
    else
      var productNegative := Negative(a) != Negative(b);
      if IsInfinite(a) || IsInfinite(b) then
        if IsZero(a) || IsZero(b) then QuietNan() else Add(Infinity(productNegative), c, f)
      else if IsInfinite(c) then c
      else if IsZero(a) || IsZero(b) then Add(Zero(productNegative), c, f)
      else
        var x, y, z := Unpack(a), Unpack(b), Unpack(c);
        var product, exponent := x.significand * y.significand, x.exponent + y.exponent;
        if IsZero(c) then RoundExact(productNegative, product, exponent, false, f)
        else AddExact(productNegative, product, exponent, z.negative, z.significand, z.exponent, f)
  }

  function RemainderTrunc(lhs: nat, rhs: nat, f: Format): nat
    requires lhs < B128 && rhs < B128
  {
    if IsNan(lhs) || IsNan(rhs) || IsInfinite(lhs) || IsZero(rhs) then QuietNan()
    else if IsInfinite(rhs) || IsZero(lhs) then lhs
    else
      var l, r := Unpack(lhs), Unpack(rhs);
      var exponent := if l.exponent < r.exponent then l.exponent else r.exponent;
      NonzeroSignificand(rhs);
      MulStrict(0, r.significand, P2(r.exponent - exponent));
      var rest := l.significand * P2(l.exponent - exponent) % (r.significand * P2(r.exponent - exponent));
      if rest == 0 then Zero(Negative(lhs)) else RoundExact(Negative(lhs), rest, exponent, false, f)
  }

  // ----- Vocabulary -------------------------------------------------------------------------------

  /** `bits` is the nonzero real number `z`, rounded once. */
  ghost predicate SignedRounded(f: Format, z: real, bits: nat)
  {
    CorrectlyRounded(f, z < 0.0, Abs(z), bits)
  }

  ghost predicate IsValueOf(f: Format, bits: nat)
  {
    bits < B128 && IsFinite(bits) && exists m: nat, k: int :: InFormat(f, m, k) && Magnitude(bits) == Val(m, k)
  }

  lemma {:induction false} NonzeroSignificand(bits: nat)
    requires bits < B128 && IsFinite(bits) && !IsZero(bits)
    ensures 0 < Unpack(bits).significand
  {
    UnpackCanonical(bits);
  }

  lemma {:induction false} ValSum(m: nat, n: nat, k: int)
    ensures Val(m + n, k) == Val(m, k) + Val(n, k)
  {
    hide RPow, Two;
    RDistribute(m as real, -(n as real), Two(k));
  }

  lemma {:induction false} ValProduct(m: nat, k: int, n: nat, j: int)
    ensures Val(m * n, k + j) == Val(m, k) * Val(n, j)
  {
    hide RPow, Two;
    TwoAdd(k, j);
    RealMul(m, n);
    RMulSwap(m as real, n as real, Two(k), Two(j));
  }

  /** A whole number rounded without a tail. */
  lemma {:induction false} WholeRounded(negative: bool, s: nat, e: int, f: Format)
    ensures CorrectlyRounded(f, negative, Val(s, e), RoundExact(negative, s, e, false, f))
  {
    hide *;
    NoTail();
    RoundExactCorrect(negative, s, e, false, f, 0.0);
    ExactWithoutTail(s, e);
  }

  lemma {:induction false} NoTail()
    ensures IsTail(false, 0.0)
  {
  }

  // ----- Conversion between formats ---------------------------------------------------------------

  lemma {:induction false} RoundToFormatCorrect(bits: nat, f: Format)
    requires bits < B128 && IsFinite(bits)
    ensures CorrectlyRounded(f, Negative(bits), Magnitude(bits), RoundToFormat(bits, f))
  {
    hide RPow, Pow, P2, Two, Val, RoundExact, CorrectlyRounded;
    var v := Unpack(bits);
    UnpackCanonical(bits);
    if f == QUAD {
      ExactRounded(f, v.significand, v.exponent, bits);
    } else if IsZero(bits) {
      ZeroValue(Quantum(f));
      ExactRounded(f, 0, Quantum(f), bits) by { ZeroInFormat(f); }
    } else {
      WholeRounded(v.negative, v.significand, v.exponent, f);
    }
  }

  lemma {:induction false} RoundToFormatSpecial(bits: nat, f: Format)
    requires bits < B128 && !IsFinite(bits)
    ensures RoundToFormat(bits, f) == bits
  {
  }

  lemma {:induction false} ZeroInFormat(f: Format)
    ensures InFormat(f, 0, Quantum(f)) && Canonical(f, 0, Quantum(f))
  {
  }

  // ----- Addition ---------------------------------------------------------------------------------

  function Signed(negative: bool, x: real): real
  {
    if negative then -x else x
  }

  lemma {:induction false} AddExactCorrect(lhsNegative: bool, l: nat, le: int, rhsNegative: bool, r: nat, re: int, f: Format)
    ensures var z := Signed(lhsNegative, Val(l, le)) + Signed(rhsNegative, Val(r, re));
      var bits := AddExact(lhsNegative, l, le, rhsNegative, r, re, f);
      && (z != 0.0 ==> SignedRounded(f, z, bits))
      && (z == 0.0 ==> bits == Zero(lhsNegative && rhsNegative))
  {
    hide RPow, Pow, P2, Two, Val, CorrectlyRounded, RoundExact;
    var e := if le < re then le else re;
    var l', r' := l * P2(le - e), r * P2(re - e);
    ValShift(l, e, le - e);
    ValShift(r, e, re - e);
    ValStrict(l', r', e);
    ValStrict(r', l', e);
    if lhsNegative == rhsNegative {
      ValSum(l', r', e);
      WholeRounded(lhsNegative, l' + r', e, f);
      ValStrict(0, l' + r', e);
      ZeroValue(e);
      if l' + r' == 0 { RoundZero(lhsNegative, e, f); }
    } else if l' > r' {
      ValSum(l' - r', r', e);
      WholeRounded(lhsNegative, l' - r', e, f);
    } else if l' < r' {
      ValSum(r' - l', l', e);
      WholeRounded(rhsNegative, r' - l', e, f);
    }
  }

  lemma {:induction false} RoundZero(negative: bool, e: int, f: Format)
    ensures RoundExact(negative, 0, e, false, f) == Zero(negative)
  {
  }

  /** The sum of two finite values is their exact sum rounded once; an exact zero is positive
      unless both operands are negative zeros. */
  lemma {:induction false} AddCorrect(a: nat, b: nat, f: Format)
    requires a < B128 && b < B128 && IsFinite(a) && IsFinite(b)
    ensures Value(a) + Value(b) != 0.0 ==> SignedRounded(f, Value(a) + Value(b), Add(a, b, f))
    ensures Value(a) + Value(b) == 0.0 ==>
              Add(a, b, f) == Zero(Negative(a) && Negative(b) && IsZero(a) && IsZero(b))
  {
    hide RPow, Pow, P2, Two, Val, AddExact, CorrectlyRounded, Zero;
    var l, r := Unpack(a), Unpack(b);
    UnpackCanonical(a);
    UnpackCanonical(b);
    AddExactCorrect(l.negative, l.significand, l.exponent, r.negative, r.significand, r.exponent, f);
  }

  /** What is not finite: NaN wins, infinities of opposite signs cancel to NaN, and one infinity
      absorbs anything else. */
  lemma {:induction false} AddSpecial(a: nat, b: nat, f: Format)
    requires a < B128 && b < B128 && !(IsFinite(a) && IsFinite(b))
    ensures IsNan(Add(a, b, f)) <==>
              IsNan(a) || IsNan(b) || (IsInfinite(a) && IsInfinite(b) && Negative(a) != Negative(b))
    ensures IsNan(Add(a, b, f)) ==> Add(a, b, f) == QuietNan()
    ensures !IsNan(Add(a, b, f)) ==>
              Add(a, b, f) == Infinity(if IsInfinite(a) then Negative(a) else Negative(b))
  {
    QuietNanIsNan();
    InfinityPattern(a);
    InfinityPattern(b);
    if IsInfinite(a) { NotBoth(a); }
    if IsInfinite(b) { NotBoth(b); }
  }

  lemma {:induction false} SubtractSpecial(a: nat, b: nat, f: Format)
    requires a < B128 && b < B128 && !(IsFinite(a) && IsFinite(b))
    ensures IsNan(Subtract(a, b, f)) <==>
              IsNan(a) || IsNan(b) || (IsInfinite(a) && IsInfinite(b) && Negative(a) == Negative(b))
    ensures IsNan(Subtract(a, b, f)) ==> Subtract(a, b, f) == QuietNan()
    ensures !IsNan(Subtract(a, b, f)) ==>
              Subtract(a, b, f) == Infinity(if IsInfinite(a) then Negative(a) else !Negative(b))
  {
    hide Add, Negate, Infinity, QuietNan, Negative;
    NegateFlips(b);
    AddSpecial(a, Negate(b), f);
  }

  lemma {:induction false} QuietNanIsNan()
    ensures IsNan(QuietNan()) && !IsFinite(QuietNan()) && !IsInfinite(QuietNan()) && QuietNan() < B128
  {
    Unpacked(false, EXPONENT_MASK, FRACTION / 2);
  }

  lemma {:induction false} InfinityPattern(bits: nat)
    requires bits < B128
    ensures IsInfinite(bits) <==> bits == Infinity(Negative(bits))
  {
    Repacked(bits);
    InfinityNotFinite(Negative(bits));
  }

  lemma {:induction false} NotBoth(bits: nat)
    ensures !(IsInfinite(bits) && IsNan(bits))
  {
  }

  /** Negation flips the sign bit and nothing else. */
  lemma {:induction false} NegateFlips(bits: nat)
    requires bits < B128
    ensures Negate(bits) < B128 && Negate(Negate(bits)) == bits
    ensures Negative(Negate(bits)) == !Negative(bits)
    ensures BiasedExponent(Negate(bits)) == BiasedExponent(bits) && Fraction(Negate(bits)) == Fraction(bits)
    ensures IsZero(Negate(bits)) == IsZero(bits) && Magnitude(Negate(bits)) == Magnitude(bits)
  {
    hide RPow, Pow, Val;
    Repacked(bits);
    Unpacked(!Negative(bits), BiasedExponent(bits), Fraction(bits));
  }

  /** Subtraction is the exact difference rounded once. */
  lemma {:induction false} SubtractCorrect(a: nat, b: nat, f: Format)
    requires a < B128 && b < B128 && IsFinite(a) && IsFinite(b)
    ensures Value(a) != Value(b) ==> SignedRounded(f, Value(a) - Value(b), Subtract(a, b, f))
    ensures Value(a) == Value(b) ==>
              Subtract(a, b, f) == Zero(Negative(a) && !Negative(b) && IsZero(a) && IsZero(b))
  {
    hide RPow, Pow, P2, Two, Val, Add, CorrectlyRounded, Zero, Magnitude;
    NegateFlips(b);
    AddCorrect(a, Negate(b), f);
  }

  // ----- Multiplication ---------------------------------------------------------------------------

  /** The product is exact and rounded once, under the sign of the operands' signs. */
  lemma {:induction false} MultiplyCorrect(a: nat, b: nat, f: Format)
    requires a < B128 && b < B128 && IsFinite(a) && IsFinite(b)
    ensures CorrectlyRounded(f, Negative(a) != Negative(b), Magnitude(a) * Magnitude(b), Multiply(a, b, f))
  {
    hide RPow, Pow, P2, Two, Val, RoundExact, CorrectlyRounded;
    var l, r := Unpack(a), Unpack(b);
    UnpackCanonical(a);
    UnpackCanonical(b);
    var negative := Negative(a) != Negative(b);
    if IsZero(a) || IsZero(b) {
      ZeroRounds(f, negative, 0);
      ExactWithoutTail(0, 0);
      ZeroValue(0);
      assert Magnitude(a) * Magnitude(b) == 0.0;
    } else {
      ValProduct(l.significand, l.exponent, r.significand, r.exponent);
      WholeRounded(negative, l.significand * r.significand, l.exponent + r.exponent, f);
    }
  }

  // ----- Division ---------------------------------------------------------------------------------

  /** The shifted quotient is wide enough that its lowest bit is dropped in every format. */
  lemma {:induction false} QuotientWide(n: nat, d: nat, f: Format)
    requires 0 < n && 0 < d
    ensures Precision(f) + 2 <= BitLength(n * P2(QuotientShift(n, d, f)) / d)
  {
    hide Pow, P2;
    var shift := QuotientShift(n, d, f);
    BitLengthShift(n, shift);
    WideQuotient(n * P2(shift), d, Precision(f) + 1);
  }

  lemma {:induction false} WideQuotient(n: nat, d: nat, k: nat)
    requires 0 < n && 0 < d && BitLength(d) + k < BitLength(n)
    ensures 0 <= n / d && k + 1 <= BitLength(n / d)
  {
    hide Pow, P2;
    DivNonnegative(n, d);
    assert P2(BitLength(d) + k) <= n by { BitLengthAtMost(n, BitLength(d) + k); }
    assert P2(k) * d <= n by {
      BitLengthBounds(d);
      P2Add(k, BitLength(d));
      MulMono(d, P2(BitLength(d)), P2(k));
    }
    DivBelow(n, d, P2(k));
    BitLengthAtMost(n / d, k);
  }

  lemma {:induction false} WideTailAllowed(s: nat, e: int, f: Format)
    requires Precision(f) < BitLength(s)
    ensures TailAllowed(s, e, f)
  {
  }

  /** A truncated quotient and its remainder over the divisor make the exact quotient. */
  lemma {:induction false} QuotientExact(n: nat, d: nat, q: nat, r: nat, shift: nat, tail: real)
    requires 0 < d && n * P2(shift) == q * d + r && tail * d as real == r as real
    ensures (q as real + tail) * d as real == n as real * P2(shift) as real
  {
    hide Pow, P2;
    RealMul(n, P2(shift));
    RealMul(q, d);
    RDistribute(q as real, -tail, d as real);
  }

  lemma {:induction false} DivideExact(n: nat, le: int, d: nat, re: int, shift: nat, q: nat, tail: real, y: real)
    requires 0 < d && y == q as real + tail && y * d as real == n as real * P2(shift) as real
    ensures Exact(q, tail, le - re - shift) * Val(d, re) == Val(n, le)
  {
    hide RPow, Pow, P2, Two, Val, Exact;
    var e := le - re - shift;
    ExactUnits(q, tail, e, y, Two(e));
    ValUnits(d, re, Two(re));
    RMulSwap(y, Two(e), d as real, Two(re));
    TwoAdd(e, re);
    TwoAdd(shift, e + re);
    TwoNat(shift);
    RMulAssoc(n as real, P2(shift) as real, Two(e + re));
    ValUnits(n, le, Two(le));
  }

  /** A truncated, widened quotient with its remainder as sticky bit rounds to the exact quotient.
      Division of floats and the reading of decimals with a negative exponent both end here. */
  lemma {:induction false} QuotientRounded(negative: bool, n: nat, le: int, d: nat, re: int, f: Format, x: real)
    requires 0 < n && 0 < d && x * Val(d, re) == Val(n, le)
    ensures CorrectlyRounded(f, negative, x, RoundQuotient(negative, n, d, le - re, f))
  {
    hide RPow, Pow, P2, Two, Val, RoundExact, CorrectlyRounded, Exact, TailAllowed;
    var shift := QuotientShift(n, d, f);
    var q, r := QuotientAndRest(n * P2(shift), d);
    assert r == n * P2(shift) % d by { DivModUnique(n * P2(shift), d, q, r); }
    var tail := r as real / d as real;
    RemainderTail(r, d, tail);
    QuotientExact(n, d, q, r, shift, tail);
    DivideExact(n, le, d, re, shift, q, tail, q as real + tail);
    var e := le - re - shift;
    ValStrict(0, d, re);
    ZeroValue(re);
    RMulCancel(x, Exact(q, tail, e), Val(d, re));
    QuotientWide(n, d, f);
    WideTailAllowed(q, e, f);
    RoundExactCorrect(negative, q, e, r != 0, f, tail);
  }

  lemma {:induction false} RemainderTail(r: nat, d: nat, tail: real)
    requires r < d && tail == r as real / d as real
    ensures tail * d as real == r as real && IsTail(r != 0, tail)
  {
    RMulCancel(tail, 1.0, d as real);
    RMulCancel(0.0, tail, d as real);
  }

  /** Division of finite values by a nonzero one is the exact quotient rounded once. */
  lemma {:induction false} DivideCorrect(a: nat, b: nat, f: Format, x: real)
    requires a < B128 && b < B128 && IsFinite(a) && IsFinite(b) && !IsZero(b)
    requires x * Magnitude(b) == Magnitude(a)
    ensures CorrectlyRounded(f, Negative(a) != Negative(b), x, Divide(a, b, f))
  {
    hide RPow, Pow, P2, Two, Val, RoundQuotient, CorrectlyRounded, QuotientShift;
    var l, r := Unpack(a), Unpack(b);
    UnpackCanonical(a);
    UnpackCanonical(b);
    var negative := Negative(a) != Negative(b);
    if IsZero(a) {
      RMulCancel(x, 0.0, Magnitude(b));
      ZeroRounds(f, negative, 0);
      ExactWithoutTail(0, 0);
      ZeroValue(0);
    } else {
      QuotientRounded(negative, l.significand, l.exponent, r.significand, r.exponent, f, x);
    }
  }

  // ----- Fused multiply-add -----------------------------------------------------------------------

  /** The signed product is the product of the values. */
  lemma {:induction false} SignedProduct(a: nat, b: nat)
    ensures Signed(Negative(a) != Negative(b), Magnitude(a) * Magnitude(b)) == Value(a) * Value(b)
  {
    hide RPow, Pow, P2, Two, Val, Magnitude, Negative;
    SignedFactors(Magnitude(a), Magnitude(b));
  }

  lemma {:induction false} SignedFactors(x: real, y: real)
    ensures (-x) * y == -(x * y) == x * (-y)
    ensures (-x) * (-y) == x * y
  {
  }

  /** `bits` is `z` rounded once, or a zero of the given sign when `z` is exactly zero. */
  ghost predicate SumRounded(f: Format, z: real, zeroNegative: bool, bits: nat)
  {
    if z == 0.0 then bits == Zero(zeroNegative) else SignedRounded(f, z, bits)
  }

  lemma {:induction false} FusedZeroProduct(a: nat, b: nat, c: nat, f: Format)
    requires a < B128 && b < B128 && c < B128 && IsFinite(a) && IsFinite(b) && IsFinite(c)
    requires IsZero(a) || IsZero(b)
    ensures SumRounded(f, Value(c), Negative(a) != Negative(b) && Negative(c) && IsZero(c), FusedMultiplyAdd(a, b, c, f))
  {
    hide RPow, Pow, P2, Two, Val, RoundExact, SignedRounded, AddExact, Add, Zero, IsZero, Magnitude;
    var negative := Negative(a) != Negative(b);
    NotFiniteExcluded(a);
    NotFiniteExcluded(b);
    NotFiniteExcluded(c);
    ZeroPattern(negative);
    AddCorrect(Zero(negative), c, f);
  }

  lemma {:induction false} FusedNonzeroProduct(a: nat, b: nat, c: nat, f: Format, p: real)
    requires a < B128 && b < B128 && c < B128 && IsFinite(a) && IsFinite(b) && IsFinite(c)
    requires !IsZero(a) && !IsZero(b) && p == Magnitude(a) * Magnitude(b)
    ensures SumRounded(f, Signed(Negative(a) != Negative(b), p) + Value(c), false, FusedMultiplyAdd(a, b, c, f))
  {
    hide RPow, Pow, P2, Two, Val, RoundExact, CorrectlyRounded, AddExact, Add, Zero, IsZero, Unpack;
    var x, y, z := Unpack(a), Unpack(b), Unpack(c);
    UnpackCanonical(a);
    UnpackCanonical(b);
    UnpackCanonical(c);
    NotFiniteExcluded(a);
    NotFiniteExcluded(b);
    NotFiniteExcluded(c);
    var negative := Negative(a) != Negative(b);
    var product, e := x.significand * y.significand, x.exponent + y.exponent;
    assert p == Val(product, e) by { ValProduct(x.significand, x.exponent, y.significand, y.exponent); }
    ProductNonzero(Magnitude(a), Magnitude(b));
    SameSignNonzero(negative, p, Negative(c), Magnitude(c));
    if IsZero(c) {
      WholeRounded(negative, product, e, f);
    } else {
      UnpackSign(c);
      AddExactCorrect(negative, product, e, z.negative, z.significand, z.exponent, f);
    }
  }

  lemma {:induction false} UnpackSign(bits: nat)
    ensures Unpack(bits).negative == Negative(bits)
  {
  }

  lemma {:induction false} SameSignNonzero(n: bool, p: real, m: bool, q: real)
    requires 0.0 < p && 0.0 <= q
    ensures Signed(n, p) + Signed(m, q) == 0.0 ==> n != m && 0.0 < q
  {
  }

  /** One rounding of the exact `a * b + c`; an exact zero is positive unless the product and the
      addend are both negative zeros. */
  lemma {:induction false} FusedMultiplyAddCorrect(a: nat, b: nat, c: nat, f: Format)
    requires a < B128 && b < B128 && c < B128 && IsFinite(a) && IsFinite(b) && IsFinite(c)
    ensures SumRounded(f, Value(a) * Value(b) + Value(c),
                       Negative(a) != Negative(b) && Negative(c) && (IsZero(a) || IsZero(b)) && IsZero(c),
                       FusedMultiplyAdd(a, b, c, f))
  {
    hide *;
    SignedProduct(a, b);
    if IsZero(a) || IsZero(b) {
      FusedZeroProduct(a, b, c, f);
      UnpackCanonical(a);
      UnpackCanonical(b);
      ZeroProduct(Negative(a) != Negative(b), Magnitude(a), Magnitude(b));
    } else {
      FusedNonzeroProduct(a, b, c, f, Magnitude(a) * Magnitude(b));
    }
  }

  lemma {:induction false} ZeroProduct(negative: bool, x: real, y: real)
    requires x == 0.0 || y == 0.0
    ensures Signed(negative, x * y) == 0.0
  {
  }

  lemma {:induction false} NotFiniteExcluded(bits: nat)
    requires IsFinite(bits)
    ensures !IsNan(bits) && !IsInfinite(bits)
  {
  }

  lemma {:induction false} ZeroPattern(negative: bool)
    ensures Zero(negative) < B128 && IsFinite(Zero(negative)) && IsZero(Zero(negative))
    ensures Negative(Zero(negative)) == negative && Magnitude(Zero(negative)) == 0.0
  {
    PackedValue(negative, 0, 0);
    ZeroValue(SUBNORMAL_EXPONENT);
    UnpackCanonical(Zero(negative));
  }

  lemma {:induction false} ProductNonzero(x: real, y: real)
    requires 0.0 < x && 0.0 < y
    ensures 0.0 < x * y
  {
  }

  // ----- The table of special operands (IEEE 754-2019, sections 6.1 to 6.3 and 7.2) ----------------

  lemma {:induction false} MultiplySpecial(a: nat, b: nat, f: Format)
    requires a < B128 && b < B128 && !(IsFinite(a) && IsFinite(b))
    ensures IsNan(Multiply(a, b, f)) <==>
              IsNan(a) || IsNan(b) || (IsInfinite(a) && IsZero(b)) || (IsZero(a) && IsInfinite(b))
    ensures IsNan(Multiply(a, b, f)) ==> Multiply(a, b, f) == QuietNan()
    ensures !IsNan(Multiply(a, b, f)) ==> Multiply(a, b, f) == Infinity(Negative(a) != Negative(b))
  {
    hide RoundExact;
    QuietNanIsNan();
    InfinityNotFinite(Negative(a) != Negative(b));
    ZeroIsFinite(a);
    ZeroIsFinite(b);
  }

  lemma {:induction false} ZeroIsFinite(bits: nat)
    requires bits < B128
    ensures IsZero(bits) ==> IsFinite(bits)
  {
  }

  lemma {:induction false} DivideSpecial(a: nat, b: nat, f: Format)
    requires a < B128 && b < B128 && (!IsFinite(a) || !IsFinite(b) || IsZero(b))
    ensures IsNan(Divide(a, b, f)) <==>
              IsNan(a) || IsNan(b) || (IsInfinite(a) && IsInfinite(b)) || (IsZero(a) && IsZero(b))
    ensures IsNan(Divide(a, b, f)) ==> Divide(a, b, f) == QuietNan()
    ensures !IsNan(Divide(a, b, f)) ==>
              Divide(a, b, f) == if IsInfinite(b) then Zero(Negative(a) != Negative(b))
                                 else Infinity(Negative(a) != Negative(b))
  {
    hide RoundQuotient;
    var negative := Negative(a) != Negative(b);
    QuietNanIsNan();
    InfinityNotFinite(negative);
    ZeroPattern(negative);
    if IsZero(a) { ZeroIsFinite(a); }
    if IsZero(b) { ZeroIsFinite(b); }
  }

  lemma {:induction false} FusedSpecial(a: nat, b: nat, c: nat, f: Format)
    requires a < B128 && b < B128 && c < B128 && !(IsFinite(a) && IsFinite(b) && IsFinite(c))
    ensures var negative := Negative(a) != Negative(b);
      var r := FusedMultiplyAdd(a, b, c, f);
      && (IsNan(r) <==>
            || IsNan(a) || IsNan(b) || IsNan(c)
            || (IsInfinite(a) && IsZero(b)) || (IsZero(a) && IsInfinite(b))
            || ((IsInfinite(a) || IsInfinite(b)) && IsInfinite(c) && Negative(c) != negative))
      && (IsNan(r) ==> r == QuietNan())
      && (!IsNan(r) ==> r == Infinity(if IsInfinite(c) then Negative(c) else negative))
  {
    hide RoundExact, AddExact;
    var negative := Negative(a) != Negative(b);
    QuietNanIsNan();
    InfinityNotFinite(negative);
    InfinityPattern(c);
    AddSpecial(Infinity(negative), c, f);
    if IsZero(a) { ZeroIsFinite(a); }
    if IsZero(b) { ZeroIsFinite(b); }
    if IsZero(c) { ZeroIsFinite(c); }
  }
}
