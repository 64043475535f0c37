/** Numbers every reader of the standard knows: the patterns of one, of the smallest and the largest
    values and of infinity in each format, as section 3.4 of IEEE 754-2019 gives them. */
module Landmarks {
  import opened Powers
  import opened Limbs
  import opened Formats
  import opened Rounding
  import opened FloatOps
  import opened Encoding

  // ----- Binary128 itself -------------------------------------------------------------------------

  const QUAD_ONE: nat := 0x3FFF_0000_0000_0000_0000_0000_0000_0000
  const QUAD_SIGN: nat := 0x8000_0000_0000_0000_0000_0000_0000_0000

  lemma {:induction false} QuadLandmarks()
    ensures QUAD_ONE < B128 && IsFinite(QUAD_ONE) && !Negative(QUAD_ONE) && Magnitude(QUAD_ONE) == 1.0
    ensures var negated := QUAD_SIGN + QUAD_ONE;
      negated < B128 && IsFinite(negated) && Negative(negated) && Magnitude(negated) == 1.0
    ensures Zero(false) == 0 && Zero(true) == QUAD_SIGN
    ensures Infinity(false) == 0x7FFF_0000_0000_0000_0000_0000_0000_0000
    ensures Infinity(true) == 0xFFFF_0000_0000_0000_0000_0000_0000_0000
    ensures QuietNan() == 0x7FFF_8000_0000_0000_0000_0000_0000_0000
  {
    hide Pow, P2, Two, Val;
    assert Unpack(QUAD_ONE) == Parts(false, FRACTION, -112);
    QuadConstants();
    ValPower(112, -112);
    TwoNat(0);
    P2Zero();
    assert Unpack(QUAD_SIGN + QUAD_ONE) == Parts(true, FRACTION, -112);
  }

  // ----- The patterns of the formats ----------------------------------------------------------------

  function SignBit(f: Format): nat
  {
    match f
    case HALF => 0x8000
    case SINGLE => 0x8000_0000
    case DOUBLE => 0x8000_0000_0000_0000
    case X87 => 0x8000_0000_0000_0000_0000
    case QUAD => 0x8000_0000_0000_0000_0000_0000_0000_0000
  }

  function OnePattern(f: Format): nat
  {
    match f
    case HALF => 0x3C00
    case SINGLE => 0x3F80_0000
    case DOUBLE => 0x3FF0_0000_0000_0000
    case X87 => 0x3FFF_8000_0000_0000_0000
    case QUAD => 0x3FFF_0000_0000_0000_0000_0000_0000_0000
  }

  function LargestPattern(f: Format): nat
  {
    match f
    case HALF => 0x7BFF
    case SINGLE => 0x7F7F_FFFF
    case DOUBLE => 0x7FEF_FFFF_FFFF_FFFF
    case X87 => 0x7FFE_FFFF_FFFF_FFFF_FFFF
    case QUAD => 0x7FFE_FFFF_FFFF_FFFF_FFFF_FFFF_FFFF_FFFF
  }

  function InfinityPattern(f: Format): nat
  {
    match f
    case HALF => 0x7C00
    case SINGLE => 0x7F80_0000
    case DOUBLE => 0x7FF0_0000_0000_0000
    case X87 => 0x7FFF_8000_0000_0000_0000
    case QUAD => 0x7FFF_0000_0000_0000_0000_0000_0000_0000
  }

  /** The smallest positive value is two to this exponent, and its pattern is one. */
  function SmallestExponent(f: Format): int
  {
    match f
    case HALF => -24
    case SINGLE => -149
    case DOUBLE => -1_074
    case X87 => -16_445
    case QUAD => -16_494
  }

  /** The largest finite value: all bits of the significand, at the highest exponent. */
  function LargestValue(f: Format): real
  {
    match f
    case HALF => 65_504.0
    case SINGLE => Val(0xFF_FFFF, 104)
    case DOUBLE => Val(0x1F_FFFF_FFFF_FFFF, 971)
    case X87 => Val(0xFFFF_FFFF_FFFF_FFFF, 16_320)
    case QUAD => Val(0x1_FFFF_FFFF_FFFF_FFFF_FFFF_FFFF_FFFF, 16_271)
  }

  // ----- Proofs -------------------------------------------------------------------------------------

  lemma {:induction false} FieldSizes()
    ensures P2(10) == 0x400 && P2(15) == 0x8000 && P2(16) == 0x1_0000 && P2(23) == 0x80_0000 && P2(31) == 0x8000_0000
    ensures P2(32) == 0x1_0000_0000 && P2(52) == 0x10_0000_0000_0000 && P2(63) == 0x8000_0000_0000_0000
    ensures P2(64) == 0x1_0000_0000_0000_0000 && P2(79) == 0x8000_0000_0000_0000_0000 && P2(80) == 0x1_0000_0000_0000_0000_0000
    ensures P2(112) == 0x1_0000_0000_0000_0000_0000_0000_0000 && P2(127) == 0x8000_0000_0000_0000_0000_0000_0000_0000
    ensures P2(128) == B128
  {
    SmallPowers();
    hide Pow, P2;
    QuadConstants();
    P2Add(5, 5);
    P2Step(15);
    P2Add(15, 8);
    P2Add(16, 15);
    P2Add(16, 16);
    P2Add(32, 10);
    P2Add(42, 10);
    P2Add(32, 31);
    P2Add(32, 32);
    P2Add(64, 15);
    P2Add(64, 16);
  }

  /** What a pattern with the given fields is the encoding of. */
  lemma {:induction false} FieldsStand(f: Format, negative: bool, biased: nat, field: nat, n: nat, j: int) returns (bits: nat)
    requires Canonical(f, n, j) && biased < AllOnes(f) && field < P2(FieldBits(f))
    requires field + (if !ExplicitIntegerBit(f) && biased != 0 then P2(FieldBits(f)) else 0) == n
    requires j == (if biased == 0 then 1 else biased) - Info(f).maxExponent - (Precision(f) - 1)
    requires ExplicitIntegerBit(f) ==> (biased != 0 <==> P2(FieldBits(f) - 1) <= field)
    ensures bits == Fields(f, negative, biased, field)
    ensures var r := Decode(bits, f);
      r < B128 && IsFinite(r) && Negative(r) == negative && Magnitude(r) == Val(n, j) && Encode(r, f) == bits
  {
    hide Pow, P2, Two, Val, Decode, Encode, Magnitude, SignOf, BiasedOf, FieldOf, Fields, IsFinite, Negative;
    IntegerBitFits(f);
    FieldsSplit(f, negative, biased, field);
    FieldsBelow(f, negative, biased, field);
    DecodeFinite(f, negative, n, j, biased, field);
    bits := Fields(f, negative, biased, field);
    EncodeDecode(bits, f);
  }

  lemma {:induction false} FieldsBelow(f: Format, negative: bool, biased: nat, field: nat)
    requires biased < P2(ExponentBits(f)) && field < P2(FieldBits(f))
    ensures 0 <= Fields(f, negative, biased, field) < P2(Info(f).storageBits)
  {
    hide Pow, P2;
    var low, mid := P2(FieldBits(f)), P2(ExponentBits(f));
    P2Add(ExponentBits(f), FieldBits(f));
    P2Step(Info(f).storageBits - 1);
    MulMono(biased + 1, mid, low);
    MulMono(0, biased, low);
  }

  /** One, and minus one. */
  lemma {:induction false} OneStands(f: Format, negative: bool)
    ensures var bits := OnePattern(f) + if negative then SignBit(f) else 0;
      Decode(bits, f) == QUAD_ONE + (if negative then QUAD_SIGN else 0) && Encode(Decode(bits, f), f) == bits
  {
    var biased, field := Info(f).maxExponent, IntegerBit(f);
    var quantum: int := 1;
    quantum := quantum - Precision(f);
    OneFields(f, negative);
    hide *;
    QuadLandmarks();
    OneCanonical(f);
    OneField(f);
    var bits := FieldsStand(f, negative, biased, field, P2(Precision(f) - 1), quantum);
    FiniteUnique(Decode(bits, f), QUAD_ONE + if negative then QUAD_SIGN else 0);
  }

  lemma {:induction false} OneFields(f: Format, negative: bool)
    ensures Fields(f, negative, Info(f).maxExponent, IntegerBit(f)) == OnePattern(f) + if negative then SignBit(f) else 0
  {
    hide Pow, P2;
    FieldSizes();
  }

  lemma {:induction false} OneCanonical(f: Format)
    ensures Canonical(f, P2(Precision(f) - 1), 1 - Precision(f)) && Val(P2(Precision(f) - 1), 1 - Precision(f)) == 1.0
  {
    hide Pow, P2, Two, Val;
    P2Strict(Precision(f) - 1, Precision(f));
    ValPower(Precision(f) - 1, 1 - Precision(f));
    TwoNat(0);
    P2Zero();
  }

  lemma {:induction false} OneField(f: Format)
    ensures var biased, field := Info(f).maxExponent, IntegerBit(f);
      && 0 < biased < AllOnes(f) && field < P2(FieldBits(f))
      && field + (if !ExplicitIntegerBit(f) then P2(FieldBits(f)) else 0) == P2(Precision(f) - 1)
      && (ExplicitIntegerBit(f) ==> P2(FieldBits(f) - 1) <= field)
  {
    hide Pow, P2;
    AllOnesIs(f);
    IntegerBitFits(f);
    P2Strict(FieldBits(f) - 1, FieldBits(f));
  }

  /** The smallest positive value. */
  lemma {:induction false} SmallestStands(f: Format)
    ensures var r := Decode(1, f);
      r < B128 && IsFinite(r) && !Negative(r) && Magnitude(r) == Two(SmallestExponent(f)) && Encode(r, f) == 1
  {
    SmallestField(f);
    hide Pow, P2, Two, Val, Decode, Encode, Magnitude, IsFinite, Negative, AllOnes, Fields;
    var bits := FieldsStand(f, false, 0, 1, 1, Quantum(f));
    ValPower(0, Quantum(f));
    P2Zero();
  }

  lemma {:induction false} SmallestField(f: Format)
    ensures 0 < AllOnes(f) && 1 < P2(FieldBits(f)) && 1 < P2(FieldBits(f) - 1) && Canonical(f, 1, Quantum(f))
    ensures Fields(f, false, 0, 1) == 1
  {
    hide Pow, P2;
    AllOnesIs(f);
    P2Zero();
    P2Strict(0, FieldBits(f) - 1);
    P2Strict(FieldBits(f) - 1, FieldBits(f));
    P2Strict(0, Precision(f));
  }

  /** The largest finite value. */
  lemma {:induction false} LargestStands(f: Format)
    ensures var r := Decode(LargestPattern(f), f);
      r < B128 && IsFinite(r) && !Negative(r) && Magnitude(r) == LargestValue(f) && Encode(r, f) == LargestPattern(f)
  {
    LargestField(f);
    LargestIs(f);
    LargestFields(f);
    hide *;
    var bits := FieldsStand(f, false, 2 * Info(f).maxExponent, P2(FieldBits(f)) - 1, P2(Precision(f)) - 1, TopQuantum(f));
  }

  lemma {:induction false} LargestField(f: Format)
    ensures var biased, field, n := 2 * Info(f).maxExponent, P2(FieldBits(f)) - 1, P2(Precision(f)) - 1;
      && 0 < biased < AllOnes(f) && Canonical(f, n, TopQuantum(f))
      && field + (if !ExplicitIntegerBit(f) then P2(FieldBits(f)) else 0) == n
      && TopQuantum(f) == biased - Info(f).maxExponent - (Precision(f) - 1)
      && (ExplicitIntegerBit(f) ==> P2(FieldBits(f) - 1) <= field)
  {
    hide Pow, P2;
    AllOnesIs(f);
    P2Step(Precision(f) - 1);
    P2Step(FieldBits(f) - 1);
  }

  lemma {:induction false} LargestIs(f: Format)
    ensures Val(P2(Precision(f)) - 1, TopQuantum(f)) == LargestValue(f)
  {
    hide Pow, P2, Two, Val;
    FieldSizes();
    P2Step(10);
    P2Step(23);
    P2Step(52);
    P2Step(112);
    if f == HALF { ThirtyTwoTimes(); }
  }

  lemma {:induction false} ThirtyTwoTimes()
    ensures Val(2047, 5) == 65_504.0
  {
    hide Pow, P2, Two;
    SmallPowers();
    TwoNat(5);
  }

  lemma {:induction false} LargestFields(f: Format)
    ensures Fields(f, false, 2 * Info(f).maxExponent, P2(FieldBits(f)) - 1) == LargestPattern(f)
  {
    hide Pow, P2;
    FieldSizes();
  }

  /** Infinity. */
  lemma {:induction false} InfinityStands(f: Format, negative: bool)
    ensures var bits := InfinityPattern(f) + if negative then SignBit(f) else 0;
      Decode(bits, f) == Infinity(negative) && Encode(Infinity(negative), f) == bits
  {
    InfinityFields(f, negative);
    PayloadRoom(f);
    hide *;
    DecodeSpecial(f, negative, 0);
    EncodeInfinity(f, negative);
  }

  lemma {:induction false} PayloadRoom(f: Format)
    ensures 0 < P2(PayloadBits(f)) && IntegerBit(f) + 0 == IntegerBit(f)
  {
  }

  lemma {:induction false} InfinityFields(f: Format, negative: bool)
    ensures Fields(f, negative, AllOnes(f), IntegerBit(f)) == InfinityPattern(f) + if negative then SignBit(f) else 0
  {
    AllOnesIs(f);
    hide Pow, P2, AllOnes;
    FieldSizes();
  }
}
