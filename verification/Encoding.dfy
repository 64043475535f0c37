/** The storage encodings of the five formats, and how they and binary128 patterns turn into each
    other. */
module Encoding {
  import opened Powers
  import opened Limbs
  import opened Formats
  import opened Rounding
  import opened FloatOps

  // ----- The layout of a format -----------------------------------------------------------------

  /** The x87 format stores its integer bit; the others imply it. */
  predicate ExplicitIntegerBit(f: Format)
  {
    f == X87
  }

  function FieldBits(f: Format): (n: nat)
    ensures 10 <= n <= 112
    ensures n == if ExplicitIntegerBit(f) then Precision(f) else Precision(f) - 1
  {
    if ExplicitIntegerBit(f) then Precision(f) else Precision(f) - 1
  }

  function PayloadBits(f: Format): (n: nat)
    ensures n == Precision(f) - 1
  {
    if ExplicitIntegerBit(f) then FieldBits(f) - 1 else FieldBits(f)
  }

  function ExponentBits(f: Format): nat
  {
    Info(f).storageBits - 1 - FieldBits(f)
  }

  function AllOnes(f: Format): (n: nat)
  {
    P2(ExponentBits(f)) - 1
  }

  function IntegerBit(f: Format): nat
  {
    if ExplicitIntegerBit(f) then P2(FieldBits(f) - 1) else 0
  }

  lemma {:induction false} ProductNonnegative(a: int, b: nat)
    ensures 0 <= a ==> 0 <= a * b
  {
    if 0 <= a { MulMono(0, a, b); }
  }

  /** Sign, biased exponent and field of an encoding, each in its own bits. */
  function Fields(f: Format, negative: bool, biased: int, field: int): (bits: int)
    ensures 0 <= biased && 0 <= field ==> 0 <= bits
  {
    hide Pow, P2;
    ProductNonnegative(biased, P2(FieldBits(f)));
    (if negative then P2(Info(f).storageBits - 1) else 0) + biased * P2(FieldBits(f)) + field
  }

  function SignOf(f: Format, bits: nat): bool
  {
    bits / P2(Info(f).storageBits - 1) % 2 != 0
  }

  function BiasedOf(f: Format, bits: nat): int
  {
    bits / P2(FieldBits(f)) % P2(ExponentBits(f))
  }

  function FieldOf(f: Format, bits: nat): int
  {
    bits % P2(FieldBits(f))
  }

  lemma {:induction false} AllOnesIs(f: Format)
    ensures AllOnes(f) == 2 * Info(f).maxExponent + 1
  {
    SmallPowers();
    hide Pow, P2;
  }

  lemma {:induction false} SmallPowers()
    ensures P2(5) == 32 && P2(8) == 256 && P2(11) == 2048 && P2(15) == 32768
  {
    assert Pow(2, 5) == 32 && Pow(2, 3) == 8;
    hide Pow;
    P2Add(5, 3);
    P2Add(8, 3);
    P2Step(11);
    P2Add(11, 3);
    P2Step(14);
  }

  lemma {:induction false} FieldsSplit(f: Format, negative: bool, biased: nat, field: nat)
    requires biased < P2(ExponentBits(f)) && field < P2(FieldBits(f))
    ensures SignOf(f, Fields(f, negative, biased, field)) == negative
    ensures BiasedOf(f, Fields(f, negative, biased, field)) == biased
    ensures FieldOf(f, Fields(f, negative, biased, field)) == field
  {
    hide Pow, P2, Fields, SignOf, BiasedOf, FieldOf;
    P2Add(ExponentBits(f), FieldBits(f));
    FieldsSplitAt(f, negative, biased, field, Fields(f, negative, biased, field),
                  P2(FieldBits(f)), P2(ExponentBits(f)), P2(Info(f).storageBits - 1));
  }

  lemma {:induction false} FieldsSplitAt(f: Format, negative: bool, biased: nat, field: nat, x: int,
      low: nat, mid: nat, top: nat)
    requires low == P2(FieldBits(f)) && mid == P2(ExponentBits(f)) && top == P2(Info(f).storageBits - 1)
    requires top == mid * low && biased < mid && field < low && x == Fields(f, negative, biased, field)
    ensures 0 <= x && SignOf(f, x) == negative && BiasedOf(f, x) == biased && FieldOf(f, x) == field
  {
    hide Pow, P2;
    WriteFields(f, negative, biased, field, low, top);
    hide Fields;
    SplitFields(low, mid, top, negative, biased, field, x);
    ReadFields(f, x, low, mid, top);
    hide SignOf, BiasedOf, FieldOf;
  }

  lemma {:induction false} WriteFields(f: Format, negative: bool, biased: nat, field: nat, low: nat, top: nat)
    requires low == P2(FieldBits(f)) && top == P2(Info(f).storageBits - 1)
    ensures Fields(f, negative, biased, field) == (if negative then top else 0) + biased * low + field
  {
    hide Pow, P2;
  }

  lemma {:induction false} ReadFields(f: Format, x: nat, low: nat, mid: nat, top: nat)
    requires low == P2(FieldBits(f)) && mid == P2(ExponentBits(f)) && top == P2(Info(f).storageBits - 1)
    ensures SignOf(f, x) == (x / top % 2 != 0) && BiasedOf(f, x) == x / low % mid && FieldOf(f, x) == x % low
  {
    hide Pow, P2;
  }

  lemma {:induction false} SplitFields(low: nat, mid: nat, top: nat, negative: bool, b: nat, c: nat, x: int)
    requires 0 < low && 0 < mid && top == mid * low && b < mid && c < low
    requires x == (if negative then top else 0) + b * low + c
    ensures 0 <= x && (x / top % 2 != 0) == negative && x / low % mid == b && x % low == c
  {
    var s := if negative then 1 else 0;
    FieldBelow(b, mid, low, c);
    DivModUnique(x, top, s, b * low + c);
    JoinSum(s, mid, b, low, c);
    DivModUnique(x, low, s * mid + b, c);
    DivModUnique(s * mid + b, mid, s, b);
  }

  /** An encoding is its fields. */
  lemma {:induction false} FieldsJoin(f: Format, bits: nat)
    requires bits < P2(Info(f).storageBits)
    ensures 0 <= BiasedOf(f, bits) < P2(ExponentBits(f)) && 0 <= FieldOf(f, bits) < P2(FieldBits(f))
    ensures bits == Fields(f, SignOf(f, bits), BiasedOf(f, bits), FieldOf(f, bits))
  {
    hide Pow, P2;
    var low, mid, top := P2(FieldBits(f)), P2(ExponentBits(f)), P2(Info(f).storageBits - 1);
    assert top == mid * low by { P2Add(ExponentBits(f), FieldBits(f)); }
    P2Step(Info(f).storageBits - 1);
    var y, c := QuotientAndRest(bits, low);
    var s, b := QuotientAndRest(y, mid);
    DivModUnique(bits, low, y, c);
    DivModUnique(y, mid, s, b);
    JoinFields(low, mid, top, bits, y, c, s, b);
  }

  lemma {:induction false} JoinFields(low: nat, mid: nat, top: nat, x: nat, y: nat, c: nat, s: nat, b: nat)
    requires 0 < low && 0 < mid && top == mid * low && x < 2 * top
    requires x == y * low + c && c < low && y == s * mid + b && b < mid
    ensures x == (if x / top % 2 != 0 then top else 0) + b * low + c
  {
    JoinSum(s, mid, b, low, c);
    FieldBelow(b, mid, low, c);
    var rest := b * low + c;
    assert x == s * top + rest;
    DivModUnique(x, top, s, rest);
    if s >= 2 { MulMono(2, s, top); }
  }

  lemma {:induction false} FieldBelow(b: nat, mid: nat, low: nat, c: nat)
    requires b < mid && c < low
    ensures 0 <= b * low + c < mid * low
  {
    MulMono(b + 1, mid, low);
    assert (b + 1) * low == b * low + low;
    MulMono(0, b, low);
  }

  lemma {:induction false} JoinSum(s: nat, mid: nat, b: nat, low: nat, c: nat)
    ensures (s * mid + b) * low + c == s * (mid * low) + (b * low + c)
  {
    MulAssoc(s, mid, low);
    assert (s * mid + b) * low == s * mid * low + b * low;
  }

  // ----- Decoding ---------------------------------------------------------------------------------

  /** A NaN payload moved to the top of a binary128 fraction. */
  function TopAligned(f: Format, payload: nat): (fraction: nat)
  {
    hide P2, Pow;
    MulMono(0, payload, P2(FRACTION_BITS - PayloadBits(f)));
    payload * P2(FRACTION_BITS - PayloadBits(f))
  }

  function Decode(bits: nat, f: Format): nat
  {
    hide Pow, P2;
    var negative := SignOf(f, bits);
    DivNonnegative(bits, P2(FieldBits(f)));
    var biased: nat := BiasedOf(f, bits);
    var field: nat := FieldOf(f, bits);
    var integerBitClear := ExplicitIntegerBit(f) && field / P2(FieldBits(f) - 1) % 2 == 0;
    if biased != 0 && integerBitClear then QuietNan()
    else if biased == AllOnes(f) then
      var payload: nat := field % P2(PayloadBits(f));
      if payload == 0 then Infinity(negative)
      else Pack(negative, EXPONENT_MASK, TopAligned(f, payload))
    else
      var significand := if !ExplicitIntegerBit(f) && biased != 0 then field + P2(FieldBits(f)) else field;
      var exponent := (if biased == 0 then 1 else biased) - Info(f).maxExponent - (Precision(f) - 1);
      RoundExact(negative, significand, exponent, false, QUAD)
  }

  // ----- Widening a value to the format's precision ------------------------------------------------

  /** The significand and exponent of a value of the format, in its canonical form. */
  function NormalizeTo(value: Parts, f: Format): (nat, int)
  {
    hide Pow, P2;
    var width := BitLength(value.significand);
    var exponent := if value.exponent + width - Precision(f) > Quantum(f) then value.exponent + width - Precision(f)
                    else Quantum(f);
    var shift := value.exponent - exponent;
    DivNonnegative(value.significand, if shift < 0 then P2(-shift) else 1);
    (if shift >= 0 then value.significand * P2(shift) % B128 else value.significand / P2(-shift), exponent)
  }

  /** Equal values have their leading bit in the same place. */
  lemma {:induction false} LeadingBit(m: nat, k: int, n: nat, j: int)
    requires 0 < m && 0 < n && Val(m, k) == Val(n, j)
    ensures k + BitLength(m) == j + BitLength(n)
  {
    hide RPow, Pow, P2, Two, Val;
    LeadingBitOrder(m, k, n, j);
    LeadingBitOrder(n, j, m, k);
  }

  lemma {:induction false} LeadingBitOrder(m: nat, k: int, n: nat, j: int)
    requires 0 < m && 0 < n && Val(m, k) == Val(n, j)
    ensures k + BitLength(m) <= j + BitLength(n)
  {
    hide RPow, Pow, P2, Two, Val, Exact;
    ExactWithoutTail(m, k);
    ExactWithoutTail(n, j);
    ExactBinade(m, 0.0, k, m as real + 0.0);
    ExactBinade(n, 0.0, j, n as real + 0.0);
    if j + BitLength(n) < k + BitLength(m) { TwoMono(j + BitLength(n), k + BitLength(m) - 1); }
  }

  /** Normalizing is exact both ways: a value of the format comes out canonical. */
  lemma {:induction false} NormalizeCorrect(v: Parts, f: Format, n: nat, j: int)
    requires 0 < v.significand && Canonical(f, n, j) && Val(v.significand, v.exponent) == Val(n, j)
    ensures NormalizeTo(v, f) == (n, j)
  {
    hide RPow, Pow, P2, Two, Val, BitLength, NormalizeTo, Info;
    var m, k, p := v.significand, v.exponent, Precision(f);
    ZeroValue(j);
    ZeroValue(k);
    ValStrict(0, m, k);
    assert 0 < n;
    LeadingBit(m, k, n, j);
    BitLengthAtMost(n, p);
    BitLengthAtMost(n, p - 1);
    assert j == if k + BitLength(m) - p > Quantum(f) then k + BitLength(m) - p else Quantum(f);
    FormatWidth(f, n);
    if k >= j { WidenedSignificand(m, k, n, j); } else { NarrowedSignificand(m, k, n, j); }
    hide Canonical, Quantum, Precision, BitLength;
    NormalizeIs(v, f, n, j);
  }

  lemma {:induction false} NormalizeIs(v: Parts, f: Format, n: nat, j: int)
    requires var e := v.exponent + BitLength(v.significand) - Precision(f); j == if e > Quantum(f) then e else Quantum(f)
    requires j <= v.exponent ==> v.significand * P2(v.exponent - j) % B128 == n
    requires v.exponent < j ==> v.significand / P2(j - v.exponent) == n
    ensures NormalizeTo(v, f) == (n, j)
  {
    hide P2, Pow, BitLength, Quantum, Precision;
  }

  lemma {:induction false} WidenedSignificand(m: nat, k: int, n: nat, j: int)
    requires j <= k && Val(m, k) == Val(n, j) && n < B128
    ensures m * P2(k - j) % B128 == n
  {
    hide RPow, Pow, P2, Two, Val;
    ValShift(m, j, k - j);
    ValStrict(m * P2(k - j), n, j);
    DivModUnique(n, B128, 0, n);
  }

  lemma {:induction false} NarrowedSignificand(m: nat, k: int, n: nat, j: int)
    requires k < j && Val(m, k) == Val(n, j)
    ensures m / P2(j - k) == n
  {
    hide RPow, Pow, P2, Two, Val;
    ValShift(n, k, j - k);
    ValStrict(m, n * P2(j - k), k);
    DivModUnique(m, P2(j - k), n, 0);
  }

  lemma {:induction false} FormatWidth(f: Format, n: nat)
    requires n < P2(Precision(f))
    ensures n < B128
  {
    hide Pow, P2;
    QuadConstants();
    P2Mono(Precision(f), 128);
  }

  // ----- Encoding ---------------------------------------------------------------------------------

  /** The format's encoding of a value after rounding to it. */
  function Encode(bits: nat, f: Format): int
  {
    hide Pow, P2;
    var rounded := RoundToFormat(bits, f);
    var negative := Negative(rounded);
    if IsNan(rounded) then
      var payload := Fraction(rounded) / P2(FRACTION_BITS - PayloadBits(f));
      var kept := if payload == 0 then P2(PayloadBits(f) - 1) else payload;
      Fields(f, negative, AllOnes(f), IntegerBit(f) + kept)
    else if IsInfinite(rounded) then Fields(f, negative, AllOnes(f), IntegerBit(f))
    else if IsZero(rounded) then Fields(f, negative, 0, 0)
    else
      var (significand, exponent) := NormalizeTo(Unpack(rounded), f);
      var subnormal := significand / P2(Precision(f) - 1) == 0;
      var biased := if subnormal then 0 else exponent + Precision(f) - 1 + Info(f).maxExponent;
      var field := if ExplicitIntegerBit(f) then significand else significand % P2(FieldBits(f));
      Fields(f, negative, biased, field)
  }

  // ----- Decoding inverts encoding ----------------------------------------------------------------

  lemma {:induction false} EncodedFinite(bits: nat, f: Format) returns (n: nat, j: int)
    requires bits < B128 && IsFinite(bits) && IsFinite(RoundToFormat(bits, f)) && !IsZero(RoundToFormat(bits, f))
    ensures var r := RoundToFormat(bits, f);
      && r < B128 && Canonical(f, n, j) && 0 < n && Magnitude(r) == Val(n, j)
      && Negative(r) == Negative(bits) && NormalizeTo(Unpack(r), f) == (n, j)
  {
    hide RPow, Pow, P2, Two, Val, RoundToFormat;
    var r := RoundToFormat(bits, f);
    RoundToFormatCorrect(bits, f);
    InfinityNotFinite(Negative(bits));
    n, j :| IsNearest(f, Magnitude(bits), n, j) && Magnitude(r) == Val(n, j);
    UnpackCanonical(r);
    ZeroValue(j);
    NormalizeCorrect(Unpack(r), f, n, j);
  }

  /** The fields an encoded finite value has. */
  lemma {:induction false} FiniteFields(f: Format, n: nat, j: int, negative: bool)
    requires Canonical(f, n, j) && 0 < n
    ensures var p := Precision(f);
      var subnormal := n / P2(p - 1) == 0;
      var biased := if subnormal then 0 else j + p - 1 + Info(f).maxExponent;
      var field := if ExplicitIntegerBit(f) then n else n % P2(FieldBits(f));
      && (subnormal <==> n < P2(p - 1)) && (subnormal ==> j == Quantum(f))
      && 0 <= biased < AllOnes(f) && 0 <= field < P2(FieldBits(f))
      && (!subnormal ==> 0 < biased)
      && field + (if !ExplicitIntegerBit(f) && !subnormal then P2(FieldBits(f)) else 0) == n
  {
    hide Pow, P2;
    var p := Precision(f);
    AllOnesIs(f);
    P2Step(p - 1);
    DivBelow(n, P2(p - 1), 1);
    DivNonnegative(n, P2(p - 1));
    if n < P2(p - 1) {
      DivModUnique(n, P2(p - 1), 0, n);
    } else {
      DivModUnique(n, P2(p - 1), 1, n - P2(p - 1));
    }
  }

  lemma {:induction false} DecodeFields(f: Format, negative: bool, n: nat, j: int, biased: nat, field: nat)
    requires biased < AllOnes(f) && field < P2(FieldBits(f))
    requires field + (if !ExplicitIntegerBit(f) && biased != 0 then P2(FieldBits(f)) else 0) == n
    requires j == (if biased == 0 then 1 else biased) - Info(f).maxExponent - (Precision(f) - 1)
    requires ExplicitIntegerBit(f) && biased != 0 ==> P2(Precision(f) - 1) <= n
    ensures Decode(Fields(f, negative, biased, field), f) == RoundExact(negative, n, j, false, QUAD)
  {
    hide RPow, Pow, P2, Two, Val, RoundExact, Fields, SignOf, BiasedOf, FieldOf;
    FieldsSplit(f, negative, biased, field);
    if ExplicitIntegerBit(f) && biased != 0 { IntegerBitSet(field, FieldBits(f)); }
  }

  lemma {:induction false} IntegerBitSet(field: nat, bits: nat)
    requires 0 < bits && P2(bits - 1) <= field < P2(bits)
    ensures field / P2(bits - 1) % 2 == 1
  {
    hide Pow, P2;
    P2Step(bits - 1);
    DivModUnique(field, P2(bits - 1), 1, field - P2(bits - 1));
  }

  /** Decoding the fields of a canonical finite value gives that value. */
  lemma {:induction false} DecodeFinite(f: Format, negative: bool, n: nat, j: int, biased: nat, field: nat)
    requires Canonical(f, n, j)
    requires biased < AllOnes(f) && field < P2(FieldBits(f))
    requires field + (if !ExplicitIntegerBit(f) && biased != 0 then P2(FieldBits(f)) else 0) == n
    requires j == (if biased == 0 then 1 else biased) - Info(f).maxExponent - (Precision(f) - 1)
    requires ExplicitIntegerBit(f) && biased != 0 ==> P2(Precision(f) - 1) <= n
    ensures var r := Decode(Fields(f, negative, biased, field), f);
      r < B128 && IsFinite(r) && Negative(r) == negative && Magnitude(r) == Val(n, j)
  {
    hide RPow, Pow, P2, Two, Val, RoundExact, CorrectlyRounded, Fields, Decode, Magnitude, IsFinite, Negative;
    DecodeFields(f, negative, n, j, biased, field);
    WholeRounded(negative, n, j, QUAD);
    WiderFormat(f, n, j);
    var m, k :| InFormat(QUAD, m, k) && Val(m, k) == Val(n, j);
    RoundedExact(QUAD, negative, m, k, RoundExact(negative, n, j, false, QUAD));
  }

  /** Every value of a format is a value of binary128. */
  lemma {:induction false} WiderFormat(f: Format, n: nat, j: int)
    requires InFormat(f, n, j)
    ensures exists m: nat, k: int :: InFormat(QUAD, m, k) && Val(m, k) == Val(n, j)
    ensures j <= TopQuantum(QUAD) ==> InFormat(QUAD, n, j)
  {
    hide RPow, Pow, P2, Two, Val;
    P2Mono(Precision(f), 113);
    var t := TopQuantum(QUAD);
    if j > t {
      P2Add(Precision(f), j - t);
      MulStrict(n, P2(Precision(f)), P2(j - t));
      P2Mono(Precision(f) + (j - t), 113);
      ValShift(n, t, j - t);
      assert InFormat(QUAD, n * P2(j - t), t);
    } else {
      assert InFormat(QUAD, n, j);
    }
  }

  /** Encoding and decoding a value that is not NaN rounds it to the format, and no more. */
  lemma {:induction false} DecodeEncode(bits: nat, f: Format)
    requires bits < B128 && !IsNan(bits)
    ensures 0 <= Encode(bits, f) && Decode(Encode(bits, f), f) == RoundToFormat(bits, f)
  {
    hide RPow, Pow, P2, Two, Val, RoundExact, Decode, RoundToFormat, NormalizeTo, Magnitude, IsZero, IsFinite;
    var r := RoundToFormat(bits, f);
    RoundedNotNan(bits, f);
    if IsInfinite(r) {
      DecodeInfinity(f, Negative(r));
      InfinityPattern(r);
    } else if IsZero(r) {
      DecodeZero(f, Negative(r), r);
    } else {
      var n, j := EncodedFinite(bits, f);
      FiniteFields(f, n, j, Negative(r));
      var subnormal := n / P2(Precision(f) - 1) == 0;
      var biased := if subnormal then 0 else j + Precision(f) - 1 + Info(f).maxExponent;
      var field := if ExplicitIntegerBit(f) then n else n % P2(FieldBits(f));
      DecodeFinite(f, Negative(r), n, j, biased, field);
      FiniteUnique(r, Decode(Fields(f, Negative(r), biased, field), f));
    }
  }

  lemma {:induction false} RoundedNotNan(bits: nat, f: Format)
    requires bits < B128 && !IsNan(bits)
    ensures var r := RoundToFormat(bits, f);
      r < B128 && !IsNan(r) && (IsInfinite(r) || (IsFinite(r) && IsFinite(bits)))
  {
    hide RPow, Pow, P2, Two, Val, RoundExact, Magnitude;
    if IsFinite(bits) {
      RoundToFormatCorrect(bits, f);
      InfinityNotFinite(Negative(bits));
    }
  }

  lemma {:induction false} IntegerBitFits(f: Format)
    ensures IntegerBit(f) < P2(FieldBits(f)) && 0 < AllOnes(f) < P2(ExponentBits(f))
    ensures ExplicitIntegerBit(f) ==> P2(PayloadBits(f)) == IntegerBit(f) && P2(FieldBits(f)) == 2 * IntegerBit(f)
    ensures !ExplicitIntegerBit(f) ==> P2(PayloadBits(f)) == P2(FieldBits(f)) && IntegerBit(f) == 0
  {
    hide Pow, P2;
    AllOnesIs(f);
    P2Step(FieldBits(f) - 1);
  }

  /** Decoding an encoding with a full exponent: infinity, or NaN with its payload on top. */
  lemma {:induction false} DecodeSpecial(f: Format, negative: bool, payload: nat)
    requires payload < P2(PayloadBits(f))
    ensures 0 <= Fields(f, negative, AllOnes(f), IntegerBit(f) + payload)
    ensures Decode(Fields(f, negative, AllOnes(f), IntegerBit(f) + payload), f)
         == if payload == 0 then Infinity(negative)
            else Pack(negative, EXPONENT_MASK, TopAligned(f, payload))
  {
    hide RPow, Pow, P2, Two, Val, RoundExact, SignOf, BiasedOf, FieldOf, Decode, IntegerBit, AllOnes, PayloadBits, Fields,
         FieldBits, ExponentBits, Precision, Info, ExplicitIntegerBit, Pack, Infinity;
    IntegerBitFits(f);
    var field := IntegerBit(f) + payload;
    FieldsSplit(f, negative, AllOnes(f), field);
    FieldParts(f, payload);
    DecodeFullExponent(f, Fields(f, negative, AllOnes(f), field), negative, field, payload);
  }

  /** Encodings with a clear integer bit under an exponent that is not zero decode to the quiet NaN. */
  lemma {:induction false} DecodeUnsupported(negative: bool, biased: nat, field: nat)
    requires 0 < biased <= AllOnes(X87) && field < IntegerBit(X87)
    ensures 0 <= Fields(X87, negative, biased, field)
    ensures Decode(Fields(X87, negative, biased, field), X87) == QuietNan()
  {
    hide RPow, Pow, P2, RoundExact, SignOf, BiasedOf, FieldOf, Decode, IntegerBit, AllOnes, PayloadBits, Fields, FieldBits,
         ExponentBits;
    IntegerBitFits(X87);
    FieldsSplit(X87, negative, biased, field);
    ClearIntegerBit(field);
    DecodeClear(Fields(X87, negative, biased, field), biased, field);
  }

  lemma {:induction false} ClearIntegerBit(field: nat)
    requires field < IntegerBit(X87)
    ensures field / P2(FieldBits(X87) - 1) == 0
  {
    hide Pow, P2;
    DivModUnique(field, P2(FieldBits(X87) - 1), 0, field);
  }

  lemma {:induction false} DecodeClear(x: nat, biased: nat, field: nat)
    requires BiasedOf(X87, x) == biased && FieldOf(X87, x) == field && biased != 0
    requires field / P2(FieldBits(X87) - 1) == 0
    ensures Decode(x, X87) == QuietNan()
  {
    hide Pow, P2, RoundExact, SignOf, BiasedOf, FieldOf, AllOnes, Pack, PayloadBits, FieldBits;
  }

  /** The integer bit and the payload, read back from the field. */
  lemma {:induction false} FieldParts(f: Format, payload: nat)
    requires payload < P2(PayloadBits(f))
    ensures 0 < P2(PayloadBits(f)) && (IntegerBit(f) + payload) % P2(PayloadBits(f)) == payload
    ensures ExplicitIntegerBit(f) ==> (IntegerBit(f) + payload) / P2(FieldBits(f) - 1) % 2 == 1
  {
    hide P2, Pow;
    IntegerBitFits(f);
    if ExplicitIntegerBit(f) {
      DivModUnique(IntegerBit(f) + payload, IntegerBit(f), 1, payload);
    } else {
      DivModUnique(payload, P2(PayloadBits(f)), 0, payload);
    }
  }

  lemma {:induction false} DecodeFullExponent(f: Format, x: nat, negative: bool, field: nat, payload: nat)
    requires SignOf(f, x) == negative && BiasedOf(f, x) == AllOnes(f) && FieldOf(f, x) == field
    requires field % P2(PayloadBits(f)) == payload
    requires ExplicitIntegerBit(f) ==> field / P2(FieldBits(f) - 1) % 2 == 1
    ensures Decode(x, f) == if payload == 0 then Infinity(negative)
                            else Pack(negative, EXPONENT_MASK, TopAligned(f, payload))
  {
    hide Pow, P2, RoundExact, SignOf, BiasedOf, FieldOf, AllOnes, Pack, Infinity, PayloadBits, FieldBits, Precision, Info,
         ExplicitIntegerBit;
  }

  lemma {:induction false} DecodeInfinity(f: Format, negative: bool)
    ensures 0 <= Fields(f, negative, AllOnes(f), IntegerBit(f))
    ensures Decode(Fields(f, negative, AllOnes(f), IntegerBit(f)), f) == Infinity(negative)
  {
    hide RPow, Pow, P2, Two, Val, RoundExact, Fields, Decode;
    DecodeSpecial(f, negative, 0);
  }

  lemma {:induction false} DecodeZero(f: Format, negative: bool, r: nat)
    requires r < B128 && IsZero(r) && Negative(r) == negative
    ensures 0 <= Fields(f, negative, 0, 0) && Decode(Fields(f, negative, 0, 0), f) == r
  {
    hide RPow, Pow, P2, Two, Val, RoundExact, CorrectlyRounded;
    ZeroIsFinite(r);
    UnpackCanonical(r);
    IntegerBitFits(f);
    ZeroValue(Quantum(f));
    ZeroInFormat(f);
    DecodeFinite(f, negative, 0, Quantum(f), 0, 0);
    FiniteUnique(r, Decode(Fields(f, negative, 0, 0), f));
  }

  // ----- Encoding inverts decoding ----------------------------------------------------------------

  /** Encodings the x87 format accepts: the stored integer bit agrees with the exponent. */
  predicate CanonicalEncoding(f: Format, bits: nat)
  {
    && bits < P2(Info(f).storageBits)
    && (ExplicitIntegerBit(f) ==> (BiasedOf(f, bits) != 0 <==> P2(FieldBits(f) - 1) <= FieldOf(f, bits)))
  }

  /** A finite pattern that already is a value of the format is not changed by rounding to it. */
  lemma {:induction false} RoundToFormatExact(r: nat, f: Format, n: nat, j: int)
    requires r < B128 && IsFinite(r) && InFormat(f, n, j) && Magnitude(r) == Val(n, j)
    ensures RoundToFormat(r, f) == r
  {
    hide RPow, Pow, P2, Two, Val, RoundToFormat, Magnitude;
    RoundToFormatCorrect(r, f);
    RoundedExact(f, Negative(r), n, j, RoundToFormat(r, f));
    FiniteUnique(r, RoundToFormat(r, f));
  }

  lemma {:induction false} EncodeFinite(f: Format, r: nat, n: nat, j: int, biased: nat, field: nat)
    requires r < B128 && IsFinite(r) && Canonical(f, n, j) && Magnitude(r) == Val(n, j)
    requires biased < AllOnes(f) && field < P2(FieldBits(f))
    requires field + (if !ExplicitIntegerBit(f) && biased != 0 then P2(FieldBits(f)) else 0) == n
    requires j == (if biased == 0 then 1 else biased) - Info(f).maxExponent - (Precision(f) - 1)
    requires biased != 0 <==> P2(Precision(f) - 1) <= n
    ensures Encode(r, f) == Fields(f, Negative(r), biased, field)
  {
    hide RPow, Pow, P2, Two, Val, RoundToFormat, NormalizeTo, Fields;
    RoundToFormatExact(r, f, n, j);
    NotFiniteExcluded(r);
    UnpackCanonical(r);
    ZeroValue(j);
    ValStrict(0, n, j);
    if n != 0 {
      NormalizeCorrect(Unpack(r), f, n, j);
      FiniteFields(f, n, j, Negative(r));
      if ExplicitIntegerBit(f) || biased == 0 {
      } else {
        DivModUnique(n, P2(FieldBits(f)), 1, field);
      }
      if !ExplicitIntegerBit(f) && biased == 0 { DivModUnique(n, P2(FieldBits(f)), 0, field); }
    }
  }

  /** A NaN keeps its sign and its payload. */
  lemma {:induction false} EncodeNan(f: Format, negative: bool, payload: nat)
    requires 0 < payload < P2(PayloadBits(f))
    ensures var r := Pack(negative, EXPONENT_MASK, TopAligned(f, payload));
      0 <= r && Encode(r, f) == Fields(f, negative, AllOnes(f), IntegerBit(f) + payload)
  {
    hide RPow, Pow, P2, Two, Val, RoundExact, Fields, AllOnes;
    var d := FRACTION_BITS - PayloadBits(f);
    var fraction := payload * P2(d);
    QuadConstants();
    P2Add(PayloadBits(f), d);
    MulStrict(payload, P2(PayloadBits(f)), P2(d));
    MulStrict(0, payload, P2(d));
    Unpacked(negative, EXPONENT_MASK, fraction);
    DivModUnique(fraction, P2(d), payload, 0);
  }

  /** The bits of a NaN's fraction that a format has room for, or the quiet bit if they are all zero. */
  function KeptPayload(bits: nat, f: Format): (payload: nat)
    ensures 0 < payload < P2(PayloadBits(f))
  {
    hide Pow, P2;
    QuadConstants();
    P2Strict(PayloadBits(f) - 1, PayloadBits(f));
    P2Add(PayloadBits(f), FRACTION_BITS - PayloadBits(f));
    DivNonnegative(Fraction(bits), P2(FRACTION_BITS - PayloadBits(f)));
    DivBelow(Fraction(bits), P2(FRACTION_BITS - PayloadBits(f)), P2(PayloadBits(f)));
    var cut := Fraction(bits) / P2(FRACTION_BITS - PayloadBits(f));
    if cut == 0 then P2(PayloadBits(f) - 1) else cut
  }

  lemma {:induction false} EncodeNanIs(bits: nat, f: Format)
    requires IsNan(bits)
    ensures Encode(bits, f) == Fields(f, Negative(bits), AllOnes(f), IntegerBit(f) + KeptPayload(bits, f))
  {
    hide Pow, P2, RoundExact, Fields, AllOnes, IntegerBit, Negative;
  }

  /** A NaN keeps its sign and as much of its payload as fits; if nothing of it does, it becomes quiet. */
  lemma {:induction false} DecodeEncodeNan(bits: nat, f: Format)
    requires bits < B128 && IsNan(bits)
    ensures 0 <= Encode(bits, f)
    ensures Decode(Encode(bits, f), f) == Pack(Negative(bits), EXPONENT_MASK, TopAligned(f, KeptPayload(bits, f)))
  {
    hide *;
    EncodeNanIs(bits, f);
    DecodeSpecial(f, Negative(bits), KeptPayload(bits, f));
  }

  lemma {:induction false} EncodeInfinity(f: Format, negative: bool)
    ensures Encode(Infinity(negative), f) == Fields(f, negative, AllOnes(f), IntegerBit(f))
  {
    hide RPow, Pow, P2, Two, Val, RoundExact, Fields, AllOnes, Infinity;
    InfinityNotFinite(negative);
  }

  /** Decoding and encoding a canonical encoding gives it back: zeros, subnormals, normal values,
      infinities and NaN payloads alike. */
  lemma {:induction false} EncodeDecode(bits: nat, f: Format)
    requires CanonicalEncoding(f, bits)
    ensures Encode(Decode(bits, f), f) == bits
  {
    hide RPow, Pow, P2, Two, Val, RoundExact, Fields, Decode, Encode, SignOf, BiasedOf, FieldOf, Infinity, Pack;
    FieldsJoin(f, bits);
    IntegerBitFits(f);
    var negative, biased: nat, field: nat := SignOf(f, bits), BiasedOf(f, bits), FieldOf(f, bits);
    if biased == AllOnes(f) {
      var payload: nat := field - IntegerBit(f);
      DecodeSpecial(f, negative, payload);
      if payload == 0 { EncodeInfinity(f, negative); } else { EncodeNan(f, negative, payload); }
    } else {
      EncodeDecodeFinite(bits, f, negative, biased, field);
    }
  }

  lemma {:induction false} EncodeDecodeFinite(bits: nat, f: Format, negative: bool, biased: nat, field: nat)
    requires CanonicalEncoding(f, bits) && biased < AllOnes(f) && field < P2(FieldBits(f))
    requires biased == BiasedOf(f, bits) && field == FieldOf(f, bits)
    requires bits == Fields(f, negative, biased, field)
    ensures Encode(Decode(bits, f), f) == bits
  {
    hide RPow, Pow, P2, Two, Val, RoundExact, Fields, Decode, Encode, BiasedOf, FieldOf;
    AllOnesIs(f);
    var n := field + if !ExplicitIntegerBit(f) && biased != 0 then P2(FieldBits(f)) else 0;
    var j := (if biased == 0 then 1 else biased) - Info(f).maxExponent - (Precision(f) - 1);
    P2Step(Precision(f) - 1);
    DecodeFinite(f, negative, n, j, biased, field);
    EncodeFinite(f, Decode(bits, f), n, j, biased, field);
  }
}
