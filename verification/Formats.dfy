/** The five binary formats, the values each can hold, and binary128 bit patterns. */
module Formats {
  import opened Powers
  import opened Limbs

  datatype Format = HALF | SINGLE | DOUBLE | X87 | QUAD

  /** `precision` counts the leading significand bit. */
  datatype FormatInfo = FormatInfo(precision: nat, minExponent: int, maxExponent: int, storageBits: nat)

  function Info(f: Format): (info: FormatInfo)
    ensures 11 <= info.precision <= 113
    ensures info.minExponent == 1 - info.maxExponent && 15 <= info.maxExponent <= 16_383
    ensures info.precision <= info.maxExponent
  {
    match f
    case HALF => FormatInfo(11, -14, 15, 16)
    case SINGLE => FormatInfo(24, -126, 127, 32)
    case DOUBLE => FormatInfo(53, -1_022, 1_023, 64)
    case X87 => FormatInfo(64, -16_382, 16_383, 80)
    case QUAD => FormatInfo(113, -16_382, 16_383, 128)
  }

  // ----- The values of a format ---------------------------------------------------------------

  function Precision(f: Format): (p: nat)
    ensures 11 <= p <= 113
  {
    Info(f).precision
  }

  /** The exponent of the lowest bit a format can hold: that of its subnormals. */
  function Quantum(f: Format): (k: int)
    ensures -16_494 <= k <= -24
  {
    Info(f).minExponent - Info(f).precision + 1
  }

  /** The exponent of the lowest significand bit of a format's largest values. */
  function TopQuantum(f: Format): (k: int)
    ensures Quantum(f) < k && k + Precision(f) - 1 == Info(f).maxExponent <= 16_383
  {
    Info(f).maxExponent - Info(f).precision + 1
  }

  /** The number `m * 2^k`. */
  function Val(m: nat, k: int): (r: real)
    ensures 0.0 <= r
  {
    m as real * Two(k)
  }

  /** `m * 2^k` is a finite value of the format, written in any way it admits. */
  predicate InFormat(f: Format, m: nat, k: int)
  {
    m < P2(Precision(f)) && Quantum(f) <= k <= TopQuantum(f)
  }

  /** The one way of writing a value with as much of the format's precision as it has. */
  predicate Canonical(f: Format, m: nat, k: int)
  {
    InFormat(f, m, k) && (Quantum(f) < k ==> P2(Precision(f) - 1) <= m)
  }

  lemma {:induction false} ValWhole(n: nat)
    ensures Val(n, 0) == n as real
  {
    hide RPow, Pow;
    RPowZero(2);
  }

  lemma {:induction false} ValStrict(m: nat, n: nat, k: int)
    ensures m < n <==> Val(m, k) < Val(n, k)
    ensures m == n <==> Val(m, k) == Val(n, k)
  {
    hide RPow;
    RMulCancel(m as real, n as real, Two(k));
  }

  /** A value as a product, over a name for its last place. */
  lemma {:induction false} ValUnits(m: nat, k: int, u: real)
    requires u == Two(k)
    ensures Val(m, k) == m as real * u
  {
  }

  /** Moving a factor `2^d` between the significand and the exponent. */
  lemma {:induction false} ValShift(m: nat, k: int, d: nat)
    ensures Val(m * P2(d), k) == Val(m, k + d)
  {
    hide RPow, Pow, P2, Two;
    TwoAdd(d, k);
    TwoNat(d);
    RealMul(m, P2(d));
    RMulAssoc(m as real, Two(d), Two(k));
  }

  lemma {:induction false} ValPower(d: nat, k: int)
    ensures Val(P2(d), k) == Two(k + d)
  {
    hide RPow, Pow, P2, Two;
    TwoAdd(d, k);
    TwoNat(d);
  }

  /** A canonical value with a higher exponent is larger. */
  lemma {:induction false} CanonicalOrder(f: Format, m: nat, k: int, m': nat, k': int)
    requires Canonical(f, m, k) && Canonical(f, m', k') && k' < k
    ensures Val(m', k') < Val(m, k)
  {
    hide RPow, Pow, P2, Two;
    var p := Precision(f);
    ValStrict(m', P2(p), k');
    ValPower(p, k');
    TwoMono(k' + p, k + (p - 1));
    ValPower(p - 1, k);
    ValStrict(P2(p - 1), m, k);
  }

  lemma {:induction false} CanonicalUnique(f: Format, m: nat, k: int, m': nat, k': int)
    requires Canonical(f, m, k) && Canonical(f, m', k') && Val(m, k) == Val(m', k')
    ensures m == m' && k == k'
  {
    hide RPow, Pow, P2, Two;
    if k < k' { CanonicalOrder(f, m', k', m, k); }
    if k' < k { CanonicalOrder(f, m, k, m', k'); }
    ValStrict(m, m', k);
  }

  // ----- Binary128 bit patterns ----------------------------------------------------------------

  const FRACTION_BITS := 112
  const BIAS := 16_383
  const MIN_EXPONENT := -16_382
  /** One less than `MIN_EXPONENT` for each bit of the fraction. */
  const SUBNORMAL_EXPONENT := -16_494
  const SIGN_BIT: nat := 0x8000_0000_0000_0000_0000_0000_0000_0000
  const FRACTION: nat := 0x1_0000_0000_0000_0000_0000_0000_0000
  const EXPONENT_MASK: nat := 0x7fff

  lemma {:induction false} QuadConstants()
    ensures P2(112) == FRACTION && P2(113) == 2 * FRACTION && P2(127) == SIGN_BIT && P2(128) == B128
  {
    WordSizes();
    hide Pow, P2;
    SmallPower();
    P2Add(64, 32);
    P2Add(96, 16);
    P2Step(112);
    P2Step(127);
  }

  lemma {:induction false} SmallPower()
    ensures P2(16) == 0x1_0000
  {
    assert P2(8) == 0x100 by { assert Pow(2, 8) == 0x100; }
    P2Add(8, 8);
  }

  /** A sign, a biased exponent and a fraction, each in its own bits of the pattern. */
  function Pack(negative: bool, biased: nat, fraction: nat): (bits: nat)
  {
    (if negative then SIGN_BIT else 0) + biased * FRACTION + fraction
  }

  predicate Negative(bits: nat)
  {
    bits / SIGN_BIT % 2 == 1
  }

  function BiasedExponent(bits: nat): nat
  {
    bits / FRACTION % (EXPONENT_MASK + 1)
  }

  function Fraction(bits: nat): nat
  {
    bits % FRACTION
  }

  lemma {:induction false} Unpacked(negative: bool, biased: nat, fraction: nat)
    requires biased <= EXPONENT_MASK && fraction < FRACTION
    ensures Pack(negative, biased, fraction) < B128
    ensures Negative(Pack(negative, biased, fraction)) == negative
    ensures BiasedExponent(Pack(negative, biased, fraction)) == biased
    ensures Fraction(Pack(negative, biased, fraction)) == fraction
  {
  }

  lemma {:induction false} Repacked(bits: nat)
    requires bits < B128
    ensures bits == Pack(Negative(bits), BiasedExponent(bits), Fraction(bits))
    ensures BiasedExponent(bits) <= EXPONENT_MASK && Fraction(bits) < FRACTION
  {
  }

  predicate IsNan(bits: nat)
  {
    BiasedExponent(bits) == EXPONENT_MASK && Fraction(bits) != 0
  }

  predicate IsInfinite(bits: nat)
  {
    BiasedExponent(bits) == EXPONENT_MASK && Fraction(bits) == 0
  }

  predicate IsFinite(bits: nat)
  {
    BiasedExponent(bits) != EXPONENT_MASK
  }

  /** Nothing but the sign bit set. */
  predicate IsZero(bits: nat)
  {
    bits % SIGN_BIT == 0
  }

  function Infinity(negative: bool): nat
  {
    Pack(negative, EXPONENT_MASK, 0)
  }

  function QuietNan(): nat
  {
    Pack(false, EXPONENT_MASK, FRACTION / 2)
  }

  function Zero(negative: bool): nat
  {
    Pack(negative, 0, 0)
  }

  function Negate(bits: nat): (r: nat)
    requires bits < B128
  {
    if Negative(bits) then bits - SIGN_BIT else bits + SIGN_BIT
  }

  /** A finite value as `significand * 2^exponent` under a sign. */
  datatype Parts = Parts(negative: bool, significand: nat, exponent: int)

  function Unpack(bits: nat): Parts
  {
    if BiasedExponent(bits) == 0 then Parts(Negative(bits), Fraction(bits), SUBNORMAL_EXPONENT)
    else Parts(Negative(bits), FRACTION + Fraction(bits), BiasedExponent(bits) - BIAS - FRACTION_BITS)
  }

  function Magnitude(bits: nat): (r: real)
    ensures 0.0 <= r
  {
    Val(Unpack(bits).significand, Unpack(bits).exponent)
  }

  /** The real number a finite pattern stands for. */
  function Value(bits: nat): real
  {
    if Negative(bits) then -Magnitude(bits) else Magnitude(bits)
  }

  /** What unpacking yields is the canonical way of writing a quad value. */
  lemma {:induction false} UnpackCanonical(bits: nat)
    requires bits < B128 && IsFinite(bits)
    ensures Canonical(QUAD, Unpack(bits).significand, Unpack(bits).exponent)
    ensures Unpack(bits).significand == 0 <==> IsZero(bits)
    ensures Magnitude(bits) == 0.0 <==> IsZero(bits)
  {
    hide RPow, Pow, P2, Two;
    QuadConstants();
    Repacked(bits);
    var u := Unpack(bits);
    ValStrict(0, u.significand, u.exponent);
  }

  /** Equal signs and magnitudes make equal patterns. */
  lemma {:induction false} FiniteUnique(b: nat, c: nat)
    requires b < B128 && c < B128 && IsFinite(b) && IsFinite(c)
    requires Negative(b) == Negative(c) && Magnitude(b) == Magnitude(c)
    ensures b == c
  {
    hide RPow, Pow, P2, Two;
    UnpackCanonical(b);
    UnpackCanonical(c);
    var u, v := Unpack(b), Unpack(c);
    CanonicalUnique(QUAD, u.significand, u.exponent, v.significand, v.exponent);
    Repacked(b);
    Repacked(c);
  }

  // ----- Building a pattern ------------------------------------------------------------------

  /** Whether binary128 has a finite value `significand * 2^exponent`, in that very form. */
  predicate FitsQuad(significand: nat, exponent: int)
  {
    significand != 0 ==>
      && BitLength(significand) <= 113
      && SUBNORMAL_EXPONENT <= exponent
      && exponent + BitLength(significand) - 1 <= BIAS
  }

  /** Packs a value that `FitsQuad` has let through: normal significands are shifted up to 113 bits,
      subnormal ones down to the lowest exponent. */
  function ExactQuad(negative: bool, significand: nat, exponent: int): nat
    requires FitsQuad(significand, exponent)
  {
    if significand == 0 then Zero(negative)
    else
      var width := BitLength(significand);
      var topExponent := exponent + width - 1;
      if topExponent >= MIN_EXPONENT then
        Pack(negative, topExponent + BIAS, significand * P2(113 - width) % B128 % FRACTION)
      else
        Pack(negative, 0, significand * P2(exponent - SUBNORMAL_EXPONENT) % B128)
  }

  lemma {:induction false} NormalFraction(m: nat)
    requires 0 < m && BitLength(m) <= 113
    ensures FRACTION <= m * P2(113 - BitLength(m)) < 2 * FRACTION
  {
    hide Pow, P2;
    QuadConstants();
    BitLengthShift(m, 113 - BitLength(m));
    BitLengthBounds(m * P2(113 - BitLength(m)));
  }

  lemma {:induction false} SubnormalFraction(m: nat, d: nat)
    requires 0 < m && BitLength(m) + d <= 112
    ensures m * P2(d) < FRACTION
  {
    hide Pow, P2;
    QuadConstants();
    BitLengthShift(m, d);
    BitLengthAtMost(m * P2(d), 112);
  }

  lemma {:induction false} PackedValue(negative: bool, biased: nat, fraction: nat)
    requires biased < EXPONENT_MASK && fraction < FRACTION
    ensures Pack(negative, biased, fraction) < B128
    ensures IsFinite(Pack(negative, biased, fraction)) && Negative(Pack(negative, biased, fraction)) == negative
    ensures Magnitude(Pack(negative, biased, fraction))
         == if biased == 0 then Val(fraction, SUBNORMAL_EXPONENT)
            else Val(FRACTION + fraction, biased - BIAS - FRACTION_BITS)
  {
    hide RPow, Pow, P2, Two, Val;
    Unpacked(negative, biased, fraction);
  }

  /** The pattern built is the number asked for. */
  lemma {:induction false} ExactQuadValue(negative: bool, m: nat, k: int)
    requires FitsQuad(m, k)
    ensures ExactQuad(negative, m, k) < B128
    ensures IsFinite(ExactQuad(negative, m, k)) && Negative(ExactQuad(negative, m, k)) == negative
    ensures Magnitude(ExactQuad(negative, m, k)) == Val(m, k)
  {
    hide RPow, Pow, P2, Two, Val, Pack, Magnitude, IsFinite, Negative, BitLength, ExactQuad;
    if m == 0 {
      PackedValue(negative, 0, 0);
      ZeroValue(k);
      ZeroValue(SUBNORMAL_EXPONENT);
      ExactQuadIs(negative, m, k, 0, 0);
    } else if k + BitLength(m) - 1 >= MIN_EXPONENT {
      var d := 113 - BitLength(m);
      NormalFraction(m);
      MaskedFraction(m * P2(d));
      ExactQuadIs(negative, m, k, k + BitLength(m) - 1 + BIAS, m * P2(d) - FRACTION);
      PackedValue(negative, k + BitLength(m) - 1 + BIAS, m * P2(d) - FRACTION);
      ValShift(m, k - d, d);
    } else {
      var d: nat := k - SUBNORMAL_EXPONENT;
      SubnormalFraction(m, d);
      DivModUnique(m * P2(d), B128, 0, m * P2(d));
      ExactQuadIs(negative, m, k, 0, m * P2(d));
      PackedValue(negative, 0, m * P2(d));
      ValShift(m, SUBNORMAL_EXPONENT, d);
    }
  }

  lemma {:induction false} ExactQuadIs(negative: bool, m: nat, k: int, biased: nat, fraction: nat)
    requires FitsQuad(m, k)
    requires m == 0 ==> biased == 0 && fraction == 0
    requires 0 < m && k + BitLength(m) - 1 >= MIN_EXPONENT ==>
               biased == k + BitLength(m) - 1 + BIAS && fraction == m * P2(113 - BitLength(m)) % B128 % FRACTION
    requires 0 < m && k + BitLength(m) - 1 < MIN_EXPONENT ==>
               biased == 0 && fraction == m * P2(k - SUBNORMAL_EXPONENT) % B128
    ensures ExactQuad(negative, m, k) == Pack(negative, biased, fraction)
  {
    hide Pow, P2, BitLength;
  }

  lemma {:induction false} MaskedFraction(x: nat)
    requires FRACTION <= x < 2 * FRACTION
    ensures x % B128 % FRACTION == x - FRACTION
  {
  }

  lemma {:induction false} ZeroValue(k: int)
    ensures Val(0, k) == 0.0
  {
  }
}
