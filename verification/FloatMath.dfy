/** Compile-time functions on floats: deciding a result from an error interval, results nudged off
    an exact value, square roots, and the powers of ten. */
module FloatMath {
  import opened Powers
  import opened Limbs
  import opened Digits
  import opened Formats
  import opened Rounding
  import opened FloatOps

  // ----- Deciding ---------------------------------------------------------------------------------

  /** The rounded value when both ends of the error interval round to it. */
  function Decide(negative: bool, center: nat, error: nat, exponent: int, f: Format): Option<nat>
  {
    if center <= error then None
    else
      var low := RoundExact(negative, center - error, exponent, false, f);
      var high := RoundExact(negative, center + error, exponent, false, f);
      if low != high then None else Some(low)
  }

  /** `y` is off from `center * 2^exponent` by at most `error` units. */
  predicate WithinError(y: real, center: nat, error: nat, exponent: int)
    requires error <= center
  {
    Val(center - error, exponent) <= y <= Val(center + error, exponent)
  }

  /** A value is decided exactly when every number the approximation could stand for rounds to it,
      and the interval stays clear of zero. */
  lemma {:induction false} DecideCorrect(negative: bool, center: nat, error: nat, exponent: int, f: Format, bits: nat)
    ensures Decide(negative, center, error, exponent, f) == Some(bits) <==>
      error < center
      && forall y: real :: WithinError(y, center, error, exponent) ==> CorrectlyRounded(f, negative, y, bits)
  {
    hide RoundExact, CorrectlyRounded, Val;
    if error < center {
      var low, high := center - error, center + error;
      WholeRounded(negative, low, exponent, f);
      WholeRounded(negative, high, exponent, f);
      ValStrict(low, high, exponent);
      var l := RoundExact(negative, low, exponent, false, f);
      var h := RoundExact(negative, high, exponent, false, f);
      if l == h == bits {
        forall y: real | WithinError(y, center, error, exponent)
          ensures CorrectlyRounded(f, negative, y, bits)
        {
          RoundedConvex(f, negative, Val(low, exponent), y, Val(high, exponent), bits);
        }
      } else {
        assert WithinError(Val(low, exponent), center, error, exponent);
        assert WithinError(Val(high, exponent), center, error, exponent);
        if CorrectlyRounded(f, negative, Val(low, exponent), bits) {
          RoundedUnique(f, negative, Val(low, exponent), bits, l);
        }
        if CorrectlyRounded(f, negative, Val(high, exponent), bits) {
          RoundedUnique(f, negative, Val(high, exponent), bits, h);
        }
      }
    }
  }

  // ----- Nudging ----------------------------------------------------------------------------------

  /** A pattern for what lies strictly between two neighbouring multiples of a power of two: the lower
      one is rounded with a sticky bit. */
  function Nudged(negative: bool, significand: nat, exponent: int, away: bool, f: Format): nat
    requires 0 < significand
  {
    RoundExact(negative, if away then significand else significand - 1, exponent, true, f)
  }

  lemma {:induction false} NudgedCorrect(negative: bool, s: nat, e: int, away: bool, f: Format, y: real)
    requires 0 < s && TailAllowed(if away then s else s - 1, e, f)
    requires if away then Val(s, e) < y < Val(s + 1, e) else Val(s - 1, e) < y < Val(s, e)
    ensures CorrectlyRounded(f, negative, y, Nudged(negative, s, e, away, f))
  {
    hide RoundExact, CorrectlyRounded, Val, TailAllowed, Exact;
    var base := if away then s else s - 1;
    var tail := TailBetween(base, e, y);
    RoundExactCorrect(negative, base, e, true, f, tail);
  }

  /** Every number between two neighbouring multiples of a power of two is the lower one and a tail. */
  lemma {:induction false} TailBetween(s: nat, e: int, y: real) returns (tail: real)
    requires Val(s, e) < y < Val(s + 1, e)
    ensures 0.0 < tail < 1.0 && IsTail(true, tail) && Exact(s, tail, e) == y
  {
    hide Two, RPow, Val, Exact;
    var u := Two(e);
    ValUnits(s, e, u);
    ValUnits(s + 1, e, u);
    tail := y / u - s as real;
    var z := y / u;
    assert z * u == y;
    ScaledOrder(Val(s, e), y, s as real, z, u);
    ScaledOrder(y, Val(s + 1, e), z, (s + 1) as real, u);
    ExactUnits(s, tail, e, z, u);
  }

  // The significands results are nudged from all leave a bit to drop: a power of two written with
  // more bits than any format keeps (240 of them), one far below every format, and a value's own
  // significand two bits wider.

  lemma {:induction false} UnitNudgeAllowed(bits: int, f: Format, away: bool)
    requires 120 <= bits
    ensures TailAllowed(if away then P2(bits) else P2(bits) - 1, -bits, f)
  {
    hide P2, Pow;
    P2Strict(bits, bits + 1);
    BitLengthUnique(P2(bits), bits);
    P2Mono(bits - 1, bits);
    P2Step(bits - 1);
    BitLengthUnique(P2(bits) - 1, bits - 1);
    WideTailAllowed(if away then P2(bits) else P2(bits) - 1, -bits, f);
  }

  lemma {:induction false} TinyNudgeAllowed(f: Format, exponent: int)
    requires exponent <= -16_500
    ensures TailAllowed(1, exponent, f)
  {
    hide P2, Pow;
    P2Zero();
    P2Step(0);
    BitLengthUnique(1, 0);
    PlaceOfDropped(1, exponent, f);
  }

  lemma {:induction false} OwnNudgeAllowed(bits: nat, f: Format, away: bool)
    requires bits < B128 && IsFinite(bits) && !IsZero(bits)
    ensures var v := Unpack(bits);
      TailAllowed(if away then 4 * v.significand else 4 * v.significand - 1, v.exponent - 2, f)
  {
    hide P2, Pow, IsZero, IsFinite;
    UnpackCanonical(bits);
    var m, k := Unpack(bits).significand, Unpack(bits).exponent;
    var s := if away then 4 * m else 4 * m - 1;
    if k == Quantum(QUAD) {
      PlaceOfDropped(s, k - 2, f);
    } else {
      P2Step(112);
      P2Step(113);
      BitLengthAtMost(s, 113);
      WideTailAllowed(s, k - 2, f);
    }
  }

  // ----- Square roots -----------------------------------------------------------------------------

  const RADICAND_BITS := 240

  /** Whether `root` is the integer part of the square root. */
  predicate IsRoot(radicand: nat, root: nat)
  {
    root * root <= radicand < (root + 1) * (root + 1)
  }

  /** The root lies in the `width` numbers from `root` on. */
  predicate RootWithin(radicand: nat, root: nat, width: nat)
  {
    root * root <= radicand < (root + width) * (root + width)
  }

  /** Finds the integer square root one bit at a time, from the top. */
  method IntegerRoot(radicand: nat) returns (root: nat)
    ensures IsRoot(radicand, root)
  {
    hide P2, Pow, RootWithin, BitLength;
    root := 0;
    var bit: nat := BitLength(radicand) / 2 + 1;
    RootBits(radicand, bit);
    while bit > 0
      invariant RootWithin(radicand, root, P2(bit))
    {
      bit := bit - 1;
      P2Step(bit);
      var candidate := root + P2(bit);
      HalveRoot(radicand, root, P2(bit));
      if candidate * candidate <= radicand { root := candidate; }
    }
    P2Zero();
    RootFound(radicand, root);
  }

  lemma {:induction false} HalveRoot(radicand: nat, root: nat, half: nat)
    requires RootWithin(radicand, root, 2 * half)
    ensures RootWithin(radicand, if (root + half) * (root + half) <= radicand then root + half else root, half)
  {
    assert root + half + half == root + 2 * half;
  }

  lemma {:induction false} RootFound(radicand: nat, root: nat)
    requires RootWithin(radicand, root, 1)
    ensures IsRoot(radicand, root)
  {
  }

  lemma {:induction false} RootBits(radicand: nat, bit: nat)
    requires bit == BitLength(radicand) / 2 + 1
    ensures RootWithin(radicand, 0, P2(bit))
  {
    hide P2, Pow, BitLength;
    BitLengthAtMost(radicand, BitLength(radicand));
    P2Mono(BitLength(radicand), bit + bit);
    P2Add(bit, bit);
  }

  /** How far the significand is widened: to 240 bits, or 241 to keep the exponent even. */
  function RootShift(significand: nat, exponent: int): int
  {
    var shift := RADICAND_BITS - BitLength(significand);
    if (exponent - shift) % 2 != 0 then shift + 1 else shift
  }

  /** The square root of any pattern but NaN, which is answered before. */
  method SqrtOf(x: nat, f: Format) returns (r: nat)
    requires x < B128 && !IsNan(x)
    ensures IsZero(x) ==> r == x
    ensures !IsZero(x) && Negative(x) ==> r == QuietNan()
    ensures IsInfinite(x) && !Negative(x) ==> r == Infinity(false)
    ensures !Negative(x) && IsFinite(x) && !IsZero(x) ==>
              forall y: real :: 0.0 <= y && y * y == Value(x) ==> CorrectlyRounded(f, false, y, r)
  {
    hide P2, Pow, BitLength, RoundExact, CorrectlyRounded, IsZero, Negative, Infinity, QuietNan, IsInfinite, IsNan, Val;
    ZeroIsFinite(x);
    FiniteOrSpecial(x);
    if IsZero(x) { return x; }
    if Negative(x) { return QuietNan(); }
    if IsInfinite(x) { return x; }
    NonzeroSignificand(x);
    var v := Unpack(x);
    SignificandWidth(x);
    var shift := RootShift(v.significand, v.exponent);
    var radicand := v.significand * P2(shift);
    var root := IntegerRoot(radicand);
    var inexact := root * root != radicand;
    r := RoundExact(false, root, (v.exponent - shift) / 2, inexact, f);
    forall y: real | 0.0 <= y && y * y == Value(x)
      ensures CorrectlyRounded(f, false, y, r)
    {
      RootRounded(v.significand, v.exponent, shift, radicand, root, y, f);
    }
  }

  lemma {:induction false} FiniteOrSpecial(x: nat)
    requires x < B128
    ensures IsFinite(x) ==> !IsInfinite(x)
    ensures !IsFinite(x) ==> IsInfinite(x) || IsNan(x)
    ensures IsInfinite(x) && !Negative(x) ==> x == Infinity(false)
  {
    InfinityPattern(x);
  }

  lemma {:induction false} SignificandWidth(x: nat)
    requires x < B128 && IsFinite(x)
    ensures BitLength(Unpack(x).significand) <= 113
  {
    hide P2, Pow;
    UnpackCanonical(x);
    BitLengthAtMost(Unpack(x).significand, 113);
  }

  /** The integer root, with what is left as sticky bit, rounds to the real root. */
  lemma {:induction false} RootRounded(m: nat, e: int, shift: int, radicand: nat, root: nat, y: real, f: Format)
    requires 0 < m && BitLength(m) <= 113 && shift == RootShift(m, e) && 0 <= shift
    requires radicand == m * P2(shift) && IsRoot(radicand, root) && 0.0 <= y && y * y == Val(m, e)
    ensures CorrectlyRounded(f, false, y, RoundExact(false, root, (e - shift) / 2, root * root != radicand, f))
  {
    hide P2, Pow, RoundExact, CorrectlyRounded, Val, Exact, IsTail, RPow, Two, BitLength, IsRoot;
    var h := (e - shift) / 2;
    var u := Two(h);
    var z := y / u;
    assert z * u == y;
    RadicandRoot(m, e, shift, h, z, u, y);
    RootWidth(m, shift, radicand, root);
    var tail := z - root as real;
    RootTail(radicand, root, z, tail);
    ExactUnits(root, tail, h, z, u);
    WideTailAllowed(root, h, f);
    RoundExactCorrect(false, root, h, root * root != radicand, f, tail);
  }

  lemma {:induction false} RadicandRoot(m: nat, e: int, shift: int, h: int, z: real, u: real, y: real)
    requires 0 <= shift && e - shift == h + h && u == Two(h) && y == z * u && y * y == Val(m, e)
    ensures z * z == (m * P2(shift)) as real
  {
    hide P2, Pow, Two, RPow, Val;
    TwoAdd(h, h);
    ValShift(m, e - shift, shift);
    ValUnits(m * P2(shift), e - shift, u * u);
    RMulSwap(z, u, z, u);
    RMulCancel(z * z, (m * P2(shift)) as real, u * u);
  }

  lemma {:induction false} RootWidth(m: nat, shift: int, radicand: nat, root: nat)
    requires 0 < m && 0 <= shift && 240 <= BitLength(m) + shift && radicand == m * P2(shift) && IsRoot(radicand, root)
    ensures 113 < BitLength(root)
  {
    hide P2, Pow;
    BitLengthShift(m, shift);
    BitLengthBounds(radicand);
    P2Mono(238, BitLength(radicand) - 1);
    P2Add(119, 119);
    P2Mono(113, 118);
    P2Step(118);
    BitLengthAtMost(root, 113);
    if root < P2(113) {
      SquareMono(root + 1, P2(119));
    }
  }

  lemma {:induction false} SquareMono(a: nat, b: nat)
    requires a <= b
    ensures a * a <= b * b
  {
    MulMono(a, b, a);
    MulMono(a, b, b);
  }

  lemma {:induction false} RootTail(radicand: nat, root: nat, z: real, tail: real)
    requires IsRoot(radicand, root) && 0.0 <= z && z * z == radicand as real && tail == z - root as real
    ensures IsTail(root * root != radicand, tail)
  {
    RealMul(root, root);
    RealMul(root + 1, root + 1);
    var a, b := root as real, (root + 1) as real;
    assert a * a <= z * z < b * b;
    if z < a { SquareStrict(z, a); }
    if z >= b { if z > b { SquareStrict(b, z); } }
    if z > a { SquareStrict(a, z); }
    assert a <= z < b;
    assert root * root != radicand <==> z != a;
  }

  lemma {:induction false} SquareStrict(x: real, y: real)
    requires 0.0 <= x < y
    ensures x * x < y * y
  {
    var d := y - x;
    assert d * y > 0.0 && d * x >= 0.0;
    assert y * y - x * x == d * y + d * x;
  }

  // ----- Powers of ten ----------------------------------------------------------------------------

  /** Finds `k` when the value is `10^k`, by splitting off its twos and counting fives. */
  method PowerOfTen(x: Parts) returns (k: Option<int>)
    requires x.significand < P2(113)
    ensures k.Some? ==> 0 <= k.value && !x.negative && Val(x.significand, x.exponent) == Pow(10, k.value) as real
    ensures k.None? && !x.negative ==> forall n: nat :: Val(x.significand, x.exponent) != Pow(10, n) as real
  {
    hide P2, Pow, Val;
    if x.negative || x.significand == 0 {
      if x.significand == 0 { ZeroValue(x.exponent); }
      return None;
    }
    var odd, twos := x.significand, x.exponent;
    while odd % 2 == 0
      invariant 0 < odd <= x.significand && Val(odd, twos) == Val(x.significand, x.exponent)
      decreases odd
    {
      DropTwo(odd, twos);
      odd := odd / 2;
      twos := twos + 1;
    }
    // Past 48 twos the matching power of five has more than 113 bits.
    if twos < 0 || twos > 48 {
      NoPowerOfTen(odd, twos);
      return None;
    }
    var powerOfFive := 1;
    PowZero(5);
    for i := 0 to twos
      invariant powerOfFive == Pow(5, i)
    {
      PowStep(5, i);
      powerOfFive := powerOfFive * 5;
    }
    if odd != powerOfFive {
      NoPowerOfTen(odd, twos);
      return None;
    }
    TenFactors(twos);
    return Some(twos);
  }

  lemma {:induction false} DropTwo(odd: nat, twos: int)
    requires odd % 2 == 0 && 0 < odd
    ensures Val(odd / 2, twos + 1) == Val(odd, twos) && 0 < odd / 2 <= odd
  {
    hide P2, Pow, Val;
    P2Zero();
    P2Step(0);
    ValShift(odd / 2, twos, 1);
    assert odd / 2 * P2(1) == odd;
  }

  lemma {:induction false} TenFactors(n: nat)
    ensures Val(Pow(5, n), n) == Pow(10, n) as real
  {
    hide P2, Pow, Two;
    TwoNat(n);
    TwoPower(n);
    PowMul(5, 2, n);
    RealMul(Pow(5, n), P2(n));
  }

  lemma {:induction false} TwoPower(n: nat)
    ensures P2(n) == Pow(2, n)
  {
  }

  lemma {:induction false} FivePowersOdd(n: nat)
    ensures Pow(5, n) % 2 == 1
  {
    if n > 0 { FivePowersOdd(n - 1); }
  }

  /** A number has one odd part. */
  lemma {:induction false} OddPartUnique(a: nat, i: int, b: nat, j: int)
    requires a % 2 == 1 && b % 2 == 1 && Val(a, i) == Val(b, j)
    ensures a == b && i == j
  {
    hide P2, Pow, Val;
    if i < j {
      OddPartNotLower(a, i, b, j);
    } else if j < i {
      OddPartNotLower(b, j, a, i);
    } else {
      ValStrict(a, b, i);
    }
  }

  lemma {:induction false} OddPartNotLower(a: nat, i: int, b: nat, j: int)
    requires a % 2 == 1 && Val(a, i) == Val(b, j)
    ensures i >= j
  {
    hide P2, Pow, Val;
    if i < j {
      ValShift(b, i, j - i);
      ValStrict(a, b * P2(j - i), i);
      P2Step(j - i - 1);
      MulAssoc(b, 2, P2(j - i - 1));
      EvenProduct(b, P2(j - i - 1));
    }
  }

  lemma {:induction false} EvenProduct(b: nat, p: nat)
    ensures (b * (2 * p)) % 2 == 0
  {
    assert b * (2 * p) == 2 * (b * p);
  }

  lemma {:induction false} NoPowerOfTen(odd: nat, twos: int)
    requires odd % 2 == 1 && odd < P2(113)
    requires twos < 0 || twos > 48 || odd != Pow(5, twos)
    ensures forall n: nat :: Val(odd, twos) != Pow(10, n) as real
  {
    hide P2, Pow, Val;
    forall n: nat
      ensures Val(odd, twos) != Pow(10, n) as real
    {
      if Val(odd, twos) == Pow(10, n) as real {
        TenFactors(n);
        FivePowersOdd(n);
        OddPartUnique(odd, twos, Pow(5, n), n);
        if n > 48 {
          PowMono(5, 49, n);
          FiveTooWide();
        }
      }
    }
  }

  lemma {:induction false} SmallFivePower()
    ensures Pow(5, 7) == 78_125
  {
  }

  lemma {:induction false} FiveTooWide()
    ensures P2(113) <= Pow(5, 49)
  {
    hide P2, Pow;
    SmallFivePower();
    QuadConstants();
    PowAdd(5, 7, 7);
    PowAdd(5, 14, 14);
    PowAdd(5, 28, 14);
    PowAdd(5, 42, 7);
  }
}
