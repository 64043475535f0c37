/** The rounding of the test-vector generator, written without guard or sticky bits. It is proved
    correct on its own, and so agrees with the compiler's rounding bit for bit. */
module Oracle {
  import opened Powers
  import opened Limbs
  import opened Formats
  import opened Rounding

  datatype Rounded = RoundsToZero | RoundsToInf | Rounds(mantissa: nat, exponent: int)

  /** The mantissa and exponent before the range checks: the quotient by the dropped power of two,
      stepped up when the remainder is past its half, or at its half and the quotient odd. */
  function NearestParts(mantissa: nat, exponent: int, f: Format): (nat, int)
  {
    var info := Info(f);
    var length := BitLength(mantissa);
    var top := exponent + length - 1;
    var kept := if top >= info.minExponent then info.precision
                else info.precision - (info.minExponent - top);
    var shift := length - kept;
    if shift > 0 then
      DivNonnegative(mantissa, P2(shift));
      var quotient := if shift <= length + 1 then mantissa / P2(shift) else 0;
      var remainder: int := mantissa - quotient * P2(shift);
      var half := P2(shift - 1);
      (if remainder > half || (remainder == half && quotient % 2 == 1) then quotient + 1 else quotient,
       exponent + shift)
    else (mantissa, exponent)
  }

  function RoundTo(mantissa: nat, exponent: int, f: Format): Rounded
  {
    if mantissa == 0 then RoundsToZero
    else
      var (mantissa', exponent') := NearestParts(mantissa, exponent, f);
      if mantissa' == 0 then RoundsToZero
      else if exponent' + BitLength(mantissa') - 1 > Info(f).maxExponent then RoundsToInf
      else Rounds(mantissa', exponent')
  }

  /** What a finite result has to be for a quad to hold it: a carry may have added one bit. */
  predicate Holds(m: nat, k: int)
  {
    0 < m && (FitsQuad(m, k) || (m == P2(113) && FitsQuad(P2(112), k + 1)))
  }

  method QuadBits(negative: bool, rounded: Rounded) returns (bits: nat)
    requires rounded.Rounds? ==> Holds(rounded.mantissa, rounded.exponent)
    ensures rounded.RoundsToZero? ==> bits == Zero(negative)
    ensures rounded.RoundsToInf? ==> bits == Infinity(negative)
    ensures rounded.Rounds? ==>
      && bits < B128 && IsFinite(bits) && Negative(bits) == negative
      && Magnitude(bits) == Val(rounded.mantissa, rounded.exponent)
  {
    hide RPow, Pow, P2, Two, Val, Magnitude, Negative, IsFinite, Pack, ExactQuad, FitsQuad;
    if rounded.RoundsToZero? { return Zero(negative); }
    if rounded.RoundsToInf? { return Infinity(negative); }
    var mantissa, exponent := rounded.mantissa, rounded.exponent;
    if BitLength(mantissa) <= 113 { HoldsWidth(mantissa, exponent); }
    while BitLength(mantissa) > 113
      invariant 0 < mantissa && Val(mantissa, exponent) == Val(rounded.mantissa, rounded.exponent)
      invariant BitLength(mantissa) > 113 ==> Holds(mantissa, exponent)
      invariant BitLength(mantissa) <= 113 ==> FitsQuad(mantissa, exponent)
      decreases mantissa
    {
      CarriedBit(mantissa, exponent);
      mantissa, exponent := mantissa / 2, exponent + 1;
    }
    ExactQuadValue(negative, mantissa, exponent);
    bits := QuadPattern(negative, mantissa, exponent);
  }

  lemma {:induction false} HoldsWidth(m: nat, k: int)
    requires Holds(m, k) && BitLength(m) <= 113
    ensures FitsQuad(m, k)
  {
    hide Pow, P2;
    TopBitLength(114);
  }

  /** A carry into bit 114 leaves only zeros below it, so halving loses nothing. */
  lemma {:induction false} CarriedBit(m: nat, k: int)
    requires Holds(m, k) && BitLength(m) > 113
    ensures m / 2 == P2(112) && FitsQuad(m / 2, k + 1) && Val(m / 2, k + 1) == Val(m, k)
    ensures 0 < m / 2 && BitLength(m / 2) <= 113
  {
    hide RPow, Pow, P2, Two, Val;
    P2Step(112);
    P2One();
    ValShift(m / 2, k, 1);
    TopBitLength(113);
  }

  /** The pattern of a mantissa of at most 113 bits. */
  method QuadPattern(negative: bool, mantissa: nat, exponent: int) returns (bits: nat)
    requires 0 < mantissa && FitsQuad(mantissa, exponent)
    ensures bits == ExactQuad(negative, mantissa, exponent)
  {
    hide Pow, P2, Pack;
    var length := BitLength(mantissa);
    var top := exponent + length - 1;
    if top >= -16382 {
      var shifted := mantissa * P2(112 - (length - 1));
      NormalFraction(mantissa);
      SameShift(mantissa, 112 - (length - 1), 113 - length);
      MaskedFraction(shifted);
      bits := Pack(negative, top + 16383, shifted % FRACTION);
    } else {
      var shifted := mantissa * P2(exponent + 16382 + 112);
      SubnormalFraction(mantissa, exponent + 16382 + 112);
      SameShift(mantissa, exponent + 16382 + 112, exponent - SUBNORMAL_EXPONENT);
      bits := Pack(negative, 0, shifted);
    }
  }

  lemma {:induction false} SameShift(m: nat, a: nat, b: nat)
    requires a == b
    ensures m * P2(a) == m * P2(b)
  {
  }

  // ----- The generator's rounding is correct ----------------------------------------------------

  /** A remainder compared with its half decides like a nearest multiple does. */
  lemma {:induction false} RemainderHalfEven(s: nat, d: nat, n: nat, q: nat, r: int)
    requires 0 < d && q == (if d <= BitLength(s) + 1 then s / P2(d) else 0) && r == s - q * P2(d)
    requires n == if r > P2(d - 1) || (r == P2(d - 1) && q % 2 == 1) then q + 1 else q
    ensures HalfEven(s as real + 0.0, P2(d) as real, n) && q == s / P2(d)
  {
    hide Pow, P2, HalfEven;
    if d > BitLength(s) + 1 && s > 0 { NothingKept(s, d); }
    if s == 0 { DivModUnique(0, P2(d), 0, 0); }
    P2Step(d - 1);
    var q', r' := QuotientAndRest(s, P2(d));
    RoundUpHalfEven(s, P2(d), q, r, P2(d - 1), 0.0, false, n);
  }

  /** The generator's mantissa is the nearest multiple of the last place, when bits are dropped. */
  lemma {:induction false} NearestDropped(s: nat, e: int, f: Format, y: real)
    requires 0 < s && DroppedBits(s, e, f) > 0 && y == s as real + 0.0
    ensures var (m, k) := NearestParts(s, e, f);
      var d := DroppedBits(s, e, f);
      k == e + d && HalfEven(Val(s, e), Two(e + d), m) && s / P2(d) <= m
  {
    hide RPow, Pow, P2, Two, Val, HalfEven, NearestParts, DroppedBits;
    var m, q, r := NearestPartsIs(s, e, f);
    DroppedScaled(s, e, DroppedBits(s, e, f), m, q, r, y);
  }

  lemma {:induction false} DroppedScaled(s: nat, e: int, d: nat, m: nat, q: nat, r: int, y: real)
    requires 0 < d && y == s as real + 0.0 && q == (if d <= BitLength(s) + 1 then s / P2(d) else 0) && r == s - q * P2(d)
    requires m == if r > P2(d - 1) || (r == P2(d - 1) && q % 2 == 1) then q + 1 else q
    ensures HalfEven(Val(s, e), Two(e + d), m) && s / P2(d) <= m
  {
    hide RPow, Pow, P2, Two, Val, HalfEven, BitLength;
    RemainderHalfEven(s, d, m, q, r);
    ScaledHalfEven(s, e, d, m, y);
  }

  lemma {:induction false} ScaledHalfEven(s: nat, e: int, d: nat, m: nat, y: real)
    requires y == s as real + 0.0 && HalfEven(y, P2(d) as real, m)
    ensures HalfEven(Val(s, e), Two(e + d), m)
  {
    hide RPow, Pow, P2, Two, Val, HalfEven, Exact;
    ExactWithoutTail(s, e);
    ExactUnits(s, 0.0, e, y, Two(e));
    ValPower(d, e);
    ValUnits(P2(d), e, Two(e));
    HalfEvenScale(y, P2(d) as real, m, Two(e), Exact(s, 0.0, e), Two(e + d));
  }

  lemma {:induction false} NearestPartsIs(s: nat, e: int, f: Format) returns (m: nat, q: nat, r: int)
    requires 0 < s && DroppedBits(s, e, f) > 0
    ensures var d := DroppedBits(s, e, f);
      && q == (if d <= BitLength(s) + 1 then s / P2(d) else 0) && r == s - q * P2(d)
      && m == (if r > P2(d - 1) || (r == P2(d - 1) && q % 2 == 1) then q + 1 else q)
      && NearestParts(s, e, f) == (m, e + d)
  {
    hide Pow, P2, BitLength;
    var d := DroppedBits(s, e, f);
    DivNonnegative(s, P2(d));
    q := if d <= BitLength(s) + 1 then s / P2(d) else 0;
    r := s - q * P2(d);
    m := NearestParts(s, e, f).0;
  }

  /** The number rounded, and its nearest multiple of the last place in the generator's form. */
  lemma {:induction false} NearestHalfEven(s: nat, e: int, f: Format) returns (n: nat)
    requires 0 < s
    ensures var (m, k) := NearestParts(s, e, f);
      var g := Place(f, e + BitLength(s) - 1);
      && HalfEven(Val(s, e), Two(g), n)
      && Val(m, k) == Val(n, g)
      && (DroppedBits(s, e, f) <= 0 ==> (m, k) == (s, e) && g <= e && BitLength(s) <= Precision(f))
      && (DroppedBits(s, e, f) > 0 ==> (m, k) == (n, g) && s / P2(DroppedBits(s, e, f)) <= n)
  {
    hide RPow, Pow, P2, Two, Val, HalfEven, Exact;
    var d := DroppedBits(s, e, f);
    PlaceOfDropped(s, e, f);
    if d > 0 {
      NearestDropped(s, e, f, s as real + 0.0);
      n := NearestParts(s, e, f).0;
    } else {
      n := s * P2(-d);
      ExactWithoutTail(s, e);
      WidenedHalfEven(s, e, -d);
      ValShift(s, e + d, -d);
    }
  }

  /** Past the largest exponent the generator says infinity, and rightly so. */
  lemma {:induction false} PastRange(s: nat, e: int, f: Format)
    requires 0 < s && e + BitLength(s) - 1 > Info(f).maxExponent
    ensures RoundTo(s, e, f) == RoundsToInf && Val(s, e) >= Threshold(f)
  {
    hide RPow, Pow, P2, Two, Val, HalfEven, Exact, Threshold, NearestParts;
    var d, p := DroppedBits(s, e, f), Precision(f);
    ExactWithoutTail(s, e);
    ExactBinade(s, 0.0, e, s as real + 0.0);
    FarOverflow(f, Val(s, e), e + BitLength(s) - 1);
    var n := NearestHalfEven(s, e, f);
    PlaceOfDropped(s, e, f);
    if d > 0 {
      BitLengthBounds(s);
      P2Add(p - 1, d);
      DivBelow(s, P2(d), P2(p - 1));
      BitLengthAtMost(n, p - 1);
    }
  }

  /** The generator rounds every number correctly, into every format. */
  lemma {:induction false} RoundToCorrect(s: nat, e: int, f: Format)
    requires 0 < s
    ensures match RoundTo(s, e, f)
      case RoundsToZero => Val(s, e) < Threshold(f) && IsNearest(f, Val(s, e), 0, Quantum(f))
      case RoundsToInf => Val(s, e) >= Threshold(f)
      case Rounds(m, k) =>
        && Val(s, e) < Threshold(f) && Holds(m, k)
        && exists n: nat, j: int :: IsNearest(f, Val(s, e), n, j) && Val(n, j) == Val(m, k)
  {
    hide RPow, Pow, P2, Two, Val, HalfEven, Exact, Threshold, NearestParts, IsNearest, DroppedBits, RoundTo, BitLength, Holds;
    var p, top := Precision(f), e + BitLength(s) - 1;
    if top > Info(f).maxExponent {
      PastRange(s, e, f);
    } else {
      var (m, k) := NearestParts(s, e, f);
      var g := Place(f, top);
      var n := NearestHalfEven(s, e, f);
      ExactWithoutTail(s, e);
      ExactBinade(s, 0.0, e, s as real + 0.0);
      PlaceNearest(f, Val(s, e), top, n);
      NearestFits(s, e, f, n, m, k);
      RoundToIs(s, e, f, m, k);
      if m == 0 {
        NearestIsCanonical(f, Val(s, e), n, g);
        P2Strict(0, p - 1);
      } else if n == P2(p) && g < TopQuantum(f) {
        ValPower(p, g);
        ValPower(p - 1, g + 1);
        assert IsNearest(f, Val(s, e), P2(p - 1), g + 1) && Val(P2(p - 1), g + 1) == Val(m, k);
      } else if n < P2(p) {
        assert IsNearest(f, Val(s, e), n, g) && Val(n, g) == Val(m, k);
      }
    }
  }

  lemma {:induction false} RoundToIs(s: nat, e: int, f: Format, m: nat, k: int)
    requires 0 < s && NearestParts(s, e, f) == (m, k)
    ensures RoundTo(s, e, f) == if m == 0 then RoundsToZero
                                else if k + BitLength(m) - 1 > Info(f).maxExponent then RoundsToInf else Rounds(m, k)
  {
    hide NearestParts, BitLength;
  }

  lemma {:induction false} NearestIsCanonical(f: Format, x: real, m: nat, k: int)
    requires IsNearest(f, x, m, k)
    ensures Canonical(f, m, k)
  {
  }

  /** The range checks on the generator's form are those on the nearest multiple. */
  lemma {:induction false} NearestFits(s: nat, e: int, f: Format, n: nat, m: nat, k: int)
    requires 0 < s && e + BitLength(s) - 1 <= Info(f).maxExponent && n <= P2(Precision(f))
    requires Val(m, k) == Val(n, Place(f, e + BitLength(s) - 1))
    requires DroppedBits(s, e, f) <= 0 ==> (m, k) == (s, e) && Place(f, e + BitLength(s) - 1) <= e && BitLength(s) <= Precision(f)
    requires DroppedBits(s, e, f) > 0 ==> (m, k) == (n, Place(f, e + BitLength(s) - 1))
    ensures m == 0 ==> n == 0
    ensures m > 0 && k + BitLength(m) - 1 > Info(f).maxExponent ==>
              n == P2(Precision(f)) && Place(f, e + BitLength(s) - 1) == TopQuantum(f)
    ensures m > 0 && k + BitLength(m) - 1 <= Info(f).maxExponent ==>
              Holds(m, k) && !(n == P2(Precision(f)) && Place(f, e + BitLength(s) - 1) == TopQuantum(f))
  {
    hide RPow, Pow, P2, Two, Val, DroppedBits;
    var p, g := Precision(f), Place(f, e + BitLength(s) - 1);
    TopBitLength(p);
    TopBitLength(p + 1);
    TopBitLength(113);
    if DroppedBits(s, e, f) > 0 {
      if n < P2(p) { NotPastTop(f, n, g); BitLengthAtMost(n, p); }
    } else {
      ValStrict(0, s, e);
      ValStrict(0, n, g);
      if n == P2(p) {
        BitLengthBounds(s);
        ValStrict(s, P2(BitLength(s)), e);
        ValPower(BitLength(s), e);
        ValPower(p, g);
      }
    }
  }

  /** The generator's pattern for a number is the compiler's. */
  method OracleBits(negative: bool, mantissa: nat, exponent: int, f: Format) returns (bits: nat)
    ensures CorrectlyRounded(f, negative, Val(mantissa, exponent), bits)
    ensures bits == RoundExact(negative, mantissa, exponent, false, f)
  {
    hide RPow, Pow, P2, Two, Val, Exact, Threshold, IsNearest, Magnitude, RoundTo, RoundExact, Holds;
    RoundExactCorrect(negative, mantissa, exponent, false, f, 0.0);
    ExactWithoutTail(mantissa, exponent);
    var rounded := RoundTo(mantissa, exponent, f);
    if mantissa == 0 {
      ZeroRounds(f, negative, exponent);
      assert rounded == RoundsToZero by { ZeroRoundsToZero(exponent, f); }
    } else {
      RoundToCorrect(mantissa, exponent, f);
    }
    bits := QuadBits(negative, rounded);
    if rounded.RoundsToZero? {
      PackedValue(negative, 0, 0);
      ZeroValue(SUBNORMAL_EXPONENT);
      ZeroValue(Quantum(f));
    }
    RoundedUnique(f, negative, Val(mantissa, exponent), bits, RoundExact(negative, mantissa, exponent, false, f));
  }

  lemma {:induction false} ZeroRoundsToZero(exponent: int, f: Format)
    ensures RoundTo(0, exponent, f) == RoundsToZero
  {
  }
}
