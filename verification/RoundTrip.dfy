/** The layout of printed decimals, and the round trip: what is printed reads back unchanged, and
    nothing shorter does. */
module RoundTrip {
  import opened Powers
  import opened Limbs
  import opened Digits
  import opened Formats
  import opened Rounding
  import opened FloatOps
  import opened Encoding
  import opened Numerals
  import opened Parsing
  import opened Shortest
  import opened Printing

  // ----- Layout -----------------------------------------------------------------------------------

  function ScientificExponent(number: DecimalNumber): int
  {
    number.exponent + |number.digits| - 1
  }

  function LayoutDecimal(negative: bool, number: DecimalNumber): string
    requires number.digits != ""
  {
    (if negative then "-" else "") + LayoutMagnitude(number)
  }

  /** Three layouts in fixed notation, by where the point falls, and one with an exponent. */
  function LayoutMagnitude(number: DecimalNumber): string
    requires number.digits != ""
  {
    var digits := number.digits;
    var scientific := ScientificExponent(number);
    if -4 <= scientific < 16 then
      if number.exponent >= 0 then digits + Zeros(number.exponent)
      else if scientific >= 0 then digits[..scientific + 1] + "." + digits[scientific + 1..]
      else "0." + Zeros(-scientific - 1) + digits
    else
      var magnitude := if scientific < 0 then -scientific else scientific;
      [digits[0]] + (if |digits| > 1 then "." + digits[1..] else "")
        + (if scientific < 0 then "e-" else "e+") + (if magnitude < 10 then "0" else "") + Decimal(magnitude)
  }

  /** The numeral each branch of the layout spells. */
  function LayoutNumeral(number: DecimalNumber): Numeral
    requires number.digits != ""
  {
    var digits := number.digits;
    var scientific := ScientificExponent(number);
    if -4 <= scientific < 16 then
      if number.exponent >= 0 then Numeral(digits + Zeros(number.exponent), false, "", None)
      else if scientific >= 0 then Numeral(digits[..scientific + 1], true, digits[scientific + 1..], None)
      else Numeral("0", true, Zeros(-scientific - 1) + digits, None)
    else
      Numeral(digits[..1], |digits| > 1, digits[1..], Some(ExponentPart('e', LayoutExponent(scientific))))
  }

  function LayoutExponent(scientific: int): string
  {
    var magnitude := if scientific < 0 then -scientific else scientific;
    (if scientific < 0 then "-" else "+") + ((if magnitude < 10 then "0" else "") + Decimal(magnitude))
  }

  function LayoutText(negative: bool, number: DecimalNumber): FloatText
    requires number.digits != ""
  {
    FloatText(if negative then "-" else "", "", LayoutNumeral(number))
  }

  lemma {:induction false} LayoutSpells(negative: bool, number: DecimalNumber)
    requires Leading(number.digits)
    ensures SpellText(LayoutText(negative, number)) == LayoutDecimal(negative, number)
  {
    if -4 <= ScientificExponent(number) < 16 { LayoutFixed(number); } else { LayoutScientific(number); }
    hide LayoutNumeral, LayoutMagnitude, Spell;
    assert "" + Spell(LayoutNumeral(number)) == Spell(LayoutNumeral(number));
  }

  lemma {:induction false} LayoutFixed(number: DecimalNumber)
    requires number.digits != "" && -4 <= ScientificExponent(number) < 16
    ensures Spell(LayoutNumeral(number)) == LayoutMagnitude(number)
  {
    hide Decimal, LayoutExponent;
    var scientific := ScientificExponent(number);
    if number.exponent >= 0 {
      FixedWhole(number.digits + Zeros(number.exponent));
    } else if scientific >= 0 {
      FixedPoint(number.digits[..scientific + 1], number.digits[scientific + 1..]);
    } else {
      FixedPoint("0", Zeros(-scientific - 1) + number.digits);
      assert "0" + "." + (Zeros(-scientific - 1) + number.digits) == "0." + Zeros(-scientific - 1) + number.digits;
    }
  }

  lemma {:induction false} FixedWhole(whole: string)
    ensures Spell(Numeral(whole, false, "", None)) == whole
  {
  }

  lemma {:induction false} FixedPoint(whole: string, fraction: string)
    ensures Spell(Numeral(whole, true, fraction, None)) == whole + "." + fraction
  {
    assert "." + fraction + "" == "." + fraction;
  }

  lemma {:induction false} LayoutScientific(number: DecimalNumber)
    requires number.digits != "" && !(-4 <= ScientificExponent(number) < 16)
    ensures Spell(LayoutNumeral(number)) == LayoutMagnitude(number)
  {
    hide Decimal;
    var scientific := ScientificExponent(number);
    var magnitude := if scientific < 0 then -scientific else scientific;
    var n := LayoutNumeral(number);
    var zero, tail := if magnitude < 10 then "0" else "", Decimal(magnitude);
    var point := if |number.digits| > 1 then "." + number.digits[1..] else "";
    var marker := if scientific < 0 then "e-" else "e+";
    assert n.whole == [number.digits[0]];
    Regroup(n.whole, point, marker, zero, tail);
    assert SpellExponent(n) == marker + (zero + tail) by {
      assert ['e'] + ((if scientific < 0 then "-" else "+") + (zero + tail)) == marker + (zero + tail);
    }
    assert SpellFraction(n) == point + SpellExponent(n);
  }

  lemma {:induction false} Regroup(a: string, b: string, c: string, d: string, e: string)
    ensures a + (b + (c + (d + e))) == a + b + c + d + e
  {
  }

  lemma {:induction false} LayoutValid(number: DecimalNumber)
    requires Leading(number.digits)
    ensures ValidNumeral(false, LayoutNumeral(number))
    ensures WrittenExponent(LayoutNumeral(number)) in {0, ScientificExponent(number)}
  {
    hide ValueIn, Decimal;
    IsDecimalDigits(number.digits);
    var scientific := ScientificExponent(number);
    if !(-4 <= scientific < 16) {
      ExponentReads(scientific);
      assert IsDigit(false, number.digits[0]);
    }
    assert forall i :: 0 <= i < |number.digits| ==> IsDigit(false, number.digits[i]);
    assert IsDigit(false, '0');
  }

  lemma {:induction false} ExponentReads(scientific: int)
    ensures IsExponent(LayoutExponent(scientific)) && ExponentValue(LayoutExponent(scientific)) == scientific
  {
    hide ValueIn, Decimal;
    var magnitude := if scientific < 0 then -scientific else scientific;
    var text := LayoutExponent(scientific);
    var digits := (if magnitude < 10 then "0" else "") + Decimal(magnitude);
    assert text[1..] == digits;
    DecimalValue(magnitude);
    assert Zeros(1) == "0";
    if magnitude < 10 {
      PrependZeros(Decimal(magnitude), 1);
    } else {
      assert digits == Decimal(magnitude);
    }
  }

  /** The digits in a numeral, leading and trailing zeros aside. */
  ghost predicate HasDigits(n: Numeral, digits: string)
  {
    exists before: nat, after: nat :: n.whole + n.fraction == Zeros(before) + digits + Zeros(after)
  }

  lemma {:induction false} LayoutDigits(number: DecimalNumber) returns (before: nat, after: nat)
    requires number.digits != ""
    ensures var n := LayoutNumeral(number);
      && n.whole + n.fraction == Zeros(before) + number.digits + Zeros(after)
      && after == (if n.exponent.None? && 0 <= number.exponent then number.exponent else 0)
      && |n.fraction| == (if n.exponent.Some? then |number.digits| - 1
                          else if 0 <= number.exponent then 0 else -number.exponent)
  {
    hide Decimal, LayoutExponent;
    before, after := 0, 0;
    var scientific := ScientificExponent(number);
    if !(-4 <= scientific < 16) {
      Rejoined(number.digits, 1);
    } else if number.exponent >= 0 {
      after := number.exponent;
      ZerosAfter(number.digits, after);
    } else if scientific >= 0 {
      Rejoined(number.digits, scientific + 1);
    } else {
      before := -scientific;
      ZerosBefore(number.digits, before);
    }
  }

  lemma {:induction false} Rejoined(s: string, k: nat)
    requires k <= |s|
    ensures s[..k] + s[k..] == Zeros(0) + s + Zeros(0)
  {
  }

  lemma {:induction false} ZerosAfter(s: string, count: nat)
    ensures (s + Zeros(count)) + "" == Zeros(0) + s + Zeros(count)
  {
  }

  lemma {:induction false} ZerosBefore(s: string, count: nat)
    requires 0 < count
    ensures "0" + (Zeros(count - 1) + s) == Zeros(count) + s + Zeros(0)
  {
  }

  /** The layout preserves the number, and adds nothing but zeros to its digits. */
  lemma {:induction false} LayoutValue(number: DecimalNumber)
    requires Leading(number.digits)
    ensures NumeralValue(false, LayoutNumeral(number)) == NumberOf(number)
    ensures HasDigits(LayoutNumeral(number), number.digits)
  {
    hide Leading, LayoutNumeral, ValueIn, Tens, Pow, Zeros, NumeralValue, NumberOf, WrittenExponent, HasDigits, RPow;
    LeadingNonempty(number.digits);
    var n := LayoutNumeral(number);
    var before, after := LayoutDigits(number);
    LayoutExponentIs(number);
    SurroundedValue(number.digits, before, after);
    TensShift(ValueIn(10, number.digits), number.exponent - after, after);
    NumeralTens(n);
    HasDigitsIs(n, number.digits, before, after);
    NumberIs(number);
  }

  lemma {:induction false} LeadingNonempty(s: string)
    requires Leading(s)
    ensures s != ""
  {
  }

  lemma {:induction false} SurroundedValue(s: string, before: nat, after: nat)
    ensures ValueIn(10, Zeros(before) + s + Zeros(after)) == ValueIn(10, s) * Pow(10, after)
  {
    hide *;
    PrependZeros(s, before);
    AppendZeros(Zeros(before) + s, after);
  }

  lemma {:induction false} HasDigitsIs(n: Numeral, digits: string, before: nat, after: nat)
    requires n.whole + n.fraction == Zeros(before) + digits + Zeros(after)
    ensures HasDigits(n, digits)
  {
  }

  lemma {:induction false} NumberIs(number: DecimalNumber)
    ensures NumberOf(number) == Tens(ValueIn(10, number.digits), number.exponent)
  {
  }

  lemma {:induction false} NumeralTens(n: Numeral)
    ensures NumeralValue(false, n) == Tens(ValueIn(10, n.whole + n.fraction), WrittenExponent(n) - |n.fraction|)
  {
    hide ValueIn, RPow, WrittenExponent;
  }

  lemma {:induction false} LayoutExponentIs(number: DecimalNumber)
    requires number.digits != ""
    ensures var n := LayoutNumeral(number);
      WrittenExponent(n) == if n.exponent.Some? then ScientificExponent(number) else 0
  {
    hide ValueIn, Decimal, LayoutExponent;
    ExponentReads(ScientificExponent(number));
  }

  // ----- Which layout -----------------------------------------------------------------------------

  ghost predicate IsWhole(x: real)
  {
    x == x.Floor as real
  }

  /** A sign always, and two digits at least, of which the first is zero only if they are two. */
  predicate PrintedExponent(text: string)
  {
    && |text| >= 3 && IsSign(text[0]) && IsDecimal(text[1..])
    && (|text| > 3 ==> text[1] != '0')
  }

  /** How a number is written: with an exponent exactly if it is below `10^-4` or not below `10^16`, and
      then with one digit before the point; otherwise without needless zeros in front. A point is there
      for the digits behind it, of which the last is no zero. */
  ghost predicate StandardLayout(n: Numeral, x: real)
  {
    && (n.exponent.Some? <==> x < RPow(10, -4) || RPow(10, 16) <= x)
    && (n.point <==> n.fraction != "") && (n.fraction != "" ==> n.fraction[|n.fraction| - 1] != '0')
    && match n.exponent
       case Some(e) => |n.whole| == 1 && n.whole != "0" && e.marker == 'e' && PrintedExponent(e.text)
       case None => CanonicalDecimal(n.whole) && (n.point <==> !IsWhole(x))
  }

  /** Digits without a trailing zero. */
  predicate TrimmedDigits(digits: string)
  {
    Leading(digits) && digits[|digits| - 1] != '0'
  }

  lemma {:induction false} LayoutStandard(number: DecimalNumber)
    requires TrimmedDigits(number.digits)
    ensures StandardLayout(LayoutNumeral(number), NumberOf(number))
  {
    hide NumberOf, Decimal, LayoutExponent, RPow, IsWhole, ValueIn;
    LayoutRange(number);
    var scientific := ScientificExponent(number);
    if -4 <= scientific < 16 {
      if number.exponent >= 0 { WholeNumber(number); } else { BrokenNumber(number); }
      FixedShape(number);
    } else {
      ExponentShape(scientific);
      ScientificShape(number);
    }
  }

  /** The scientific exponent says between which powers of ten a number lies. */
  lemma {:induction false} LayoutRange(number: DecimalNumber)
    requires Leading(number.digits)
    ensures ScientificExponent(number) < -4 <==> NumberOf(number) < RPow(10, -4)
    ensures 16 <= ScientificExponent(number) <==> RPow(10, 16) <= NumberOf(number)
  {
    hide ValueIn, RPow, Pow, Tens;
    var e := ScientificExponent(number);
    LeadingBounds(number.digits);
    DecimalBounds(ValueIn(10, number.digits), |number.digits|, number.exponent);
    if e < -4 { RPowMono(10, e + 1, -4); } else { RPowMono(10, -4, e); }
    if e < 16 { RPowMono(10, e + 1, 16); } else { RPowMono(10, 16, e); }
  }

  lemma {:induction false} WholeNumber(number: DecimalNumber)
    requires 0 <= number.exponent
    ensures IsWhole(NumberOf(number))
  {
    hide ValueIn, RPow, Pow;
    var v, e := ValueIn(10, number.digits), number.exponent;
    RPowNat(10, e);
    RealMul(v, Pow(10, e));
    assert NumberOf(number) == (v * Pow(10, e)) as real;
  }

  /** A digit that is no zero behind the point leaves no whole number. */
  lemma {:induction false} BrokenNumber(number: DecimalNumber)
    requires TrimmedDigits(number.digits) && number.exponent < 0
    ensures !IsWhole(NumberOf(number))
  {
    LastDigit(number.digits);
    hide ValueIn, RPow, Pow, Tens, IsDecimal;
    if IsWhole(NumberOf(number)) {
      WholeMultiple(ValueIn(10, number.digits), NumberOf(number).Floor, -number.exponent);
    }
  }

  lemma {:induction false} LastDigit(digits: string)
    requires TrimmedDigits(digits)
    ensures ValueIn(10, digits) % 10 != 0
  {
    var last := |digits| - 1;
    assert IsDecimal(digits) && '0' <= digits[last] <= '9';
  }

  lemma {:induction false} WholeMultiple(v: nat, n: int, d: int)
    requires 0 < d && Tens(v, -d) == n as real
    ensures v % 10 == 0
  {
    hide RPow, Pow;
    RPowInverse(10, d);
    RPowNat(10, d);
    var p := RPow(10, d);
    RMulAssoc(v as real, RPow(10, -d), p);
    RealMul(n, Pow(10, d));
    assert v as real == n as real * p;
    assert v == n * Pow(10, d);
    PowStep(10, d - 1);
    MulAssoc(n, Pow(10, d - 1), 10);
    assert v == n * Pow(10, d - 1) * 10;
  }

  lemma {:induction false} FixedShape(number: DecimalNumber)
    requires TrimmedDigits(number.digits) && -4 <= ScientificExponent(number) < 16
    ensures var n := LayoutNumeral(number);
      && n.exponent.None? && CanonicalDecimal(n.whole) && (n.point <==> n.fraction != "")
      && (n.point <==> number.exponent < 0) && (n.fraction != "" ==> n.fraction[|n.fraction| - 1] != '0')
  {
    hide Decimal, LayoutExponent;
  }

  lemma {:induction false} ScientificShape(number: DecimalNumber)
    requires TrimmedDigits(number.digits) && !(-4 <= ScientificExponent(number) < 16)
    ensures var n := LayoutNumeral(number);
      && n.exponent == Some(ExponentPart('e', LayoutExponent(ScientificExponent(number))))
      && |n.whole| == 1 && n.whole != "0" && (n.point <==> n.fraction != "")
      && (n.fraction != "" ==> n.fraction[|n.fraction| - 1] != '0')
  {
    hide Decimal, LayoutExponent;
    assert number.digits[..1][0] == number.digits[0];
  }

  lemma {:induction false} ExponentShape(scientific: int)
    ensures PrintedExponent(LayoutExponent(scientific))
  {
    var magnitude := if scientific < 0 then -scientific else scientific;
    var text, digits := LayoutExponent(scientific), (if magnitude < 10 then "0" else "") + Decimal(magnitude);
    assert text[1..] == digits;
    if magnitude < 10 {
      assert |Decimal(magnitude)| == 1;
    } else {
      assert |Decimal(magnitude / 10)| >= 1;
      assert digits == Decimal(magnitude);
    }
  }

  /** The shortest decimal has no trailing zero: without it, it would be shorter. */
  lemma {:induction false} ShortestTrimmed(f: Format, n: nat, j: int, d: DecimalNumber)
    requires 0 < n && IsShortest(f, n, j, d)
    ensures TrimmedDigits(d.digits)
  {
    hide Inside, ValueIn, RPow, Pow, Tens;
    var last := |d.digits| - 1;
    if d.digits[last] == '0' {
      ZeroDropped(d);
    }
  }

  lemma {:induction false} ZeroDropped(d: DecimalNumber)
    requires Leading(d.digits) && d.digits[|d.digits| - 1] == '0'
    ensures var s := ValueIn(10, d.digits[..|d.digits| - 1]);
      s < Pow(10, |d.digits| - 1) && Tens(s, d.exponent + 1) == NumberOf(d)
  {
    hide ValueIn, RPow, Pow, Tens;
    ZeroLast(d.digits);
    TensShift(ValueIn(10, d.digits[..|d.digits| - 1]), d.exponent, 1);
    TenOnce();
  }

  lemma {:induction false} TenOnce()
    ensures Pow(10, 1) == 10
  {
    PowStep(10, 0);
    PowZero(10);
  }

  lemma {:induction false} ZeroLast(digits: string)
    requires Leading(digits) && digits[|digits| - 1] == '0'
    ensures var s := ValueIn(10, digits[..|digits| - 1]);
      ValueIn(10, digits) == s * 10 && s < Pow(10, |digits| - 1)
  {
    hide Pow;
    IsDecimalDigits(digits);
    var front := digits[..|digits| - 1];
    assert forall i :: 0 <= i < |front| ==> DigitOf(front[i]) < 10;
    ValueBound(10, front);
  }

  // ----- Printing ---------------------------------------------------------------------------------

  /** The text is a number, in the standard layout, that rounds to the value; no decimal with fewer
      digits does, and of those with as many digits none is nearer to the value. */
  ghost predicate ShortestText(f: Format, bits: nat, t: FloatText, d: DecimalNumber)
  {
    && ValidText(t) && !IsHex(t) && IsNegative(t) == Negative(bits) && ShortEnough(false, t.numeral)
    && Leading(d.digits) && HasDigits(t.numeral, d.digits) && NumeralValue(false, t.numeral) == NumberOf(d)
    && StandardLayout(t.numeral, NumberOf(d))
    && CorrectlyRounded(f, Negative(bits), NumberOf(d), bits)
    && (forall s: nat, e: int :: s < Pow(10, |d.digits| - 1) ==> !CorrectlyRounded(f, Negative(bits), Tens(s, e), bits))
    && (forall s: nat, e: int :: s < Pow(10, |d.digits|) && CorrectlyRounded(f, Negative(bits), Tens(s, e), bits) ==>
          Abs(NumberOf(d) - Magnitude(bits)) <= Abs(Tens(s, e) - Magnitude(bits)))
  }

  /** Whatever rounds to a nonzero finite value has an exponent of ordinary size. */
  lemma {:induction false} OrdinaryExponent(f: Format, bits: nat, d: DecimalNumber)
    requires bits < B128 && IsFinite(bits) && !IsZero(bits)
    requires Leading(d.digits) && CorrectlyRounded(f, Negative(bits), NumberOf(d), bits)
    ensures -4_968 <= ScientificExponent(d) <= 4_933
  {
    hide ValueIn, RPow, Pow, CorrectlyRounded, Threshold, IsZero, IsFinite;
    var x, v, e := NumberOf(d), ValueIn(10, d.digits), ScientificExponent(d);
    LeadingBounds(d.digits);
    DecimalBounds(v, |d.digits|, d.exponent);
    if e > 4_933 {
      RPowMono(10, 4934, e);
      LargeOverflows(x, f);
      OverflowIsInfinity(f, Negative(bits), x, bits);
      InfinityNotFinite(Negative(bits));
    }
    if e < -4_968 {
      RPowMono(10, e + 1, -4967);
      assert 0.0 <= x by { RMulMono(0.0, v as real, RPow(10, d.exponent)); }
      SmallVanishes(x, f, Negative(bits));
      RoundedUnique(f, Negative(bits), x, bits, Zero(Negative(bits)));
      ZeroPattern(Negative(bits));
    }
  }

  lemma {:induction false} DecimalBounds(v: nat, count: nat, e: int)
    requires 0 < count && Pow(10, count - 1) <= v < Pow(10, count)
    ensures RPow(10, e + count - 1) <= Tens(v, e) < RPow(10, e + count)
  {
    hide RPow, Pow;
    TensShift(1, e, count - 1);
    TensShift(1, e, count);
    TensOrder(1 * Pow(10, count - 1), v, e);
    TensOrder(v, 1 * Pow(10, count), e);
  }

  lemma {:induction false} OverflowIsInfinity(f: Format, negative: bool, x: real, bits: nat)
    requires x >= Threshold(f) && CorrectlyRounded(f, negative, x, bits)
    ensures bits == Infinity(negative)
  {
    hide Threshold, Infinity;
  }

  lemma {:induction false} ShortestIsText(f: Format, n: nat, j: int, bits: nat, d: DecimalNumber)
    requires 0 < n && Canonical(f, n, j) && bits < B128 && IsFinite(bits) && !IsZero(bits)
    requires Magnitude(bits) == Val(n, j) && IsShortest(f, n, j, d)
    ensures ShortestText(f, bits, LayoutText(Negative(bits), d), d)
  {
    hide Inside, CorrectlyRounded, Val, Canonical, IsZero, IsFinite, Pow, Tens, LayoutNumeral, NumeralValue, NumberOf,
         Magnitude, ValidNumeral, WrittenExponent, HasDigits, StandardLayout;
    ShortestTrimmed(f, n, j, d);
    LayoutStandard(d);
    LayoutValue(d);
    LayoutValid(d);
    InsideRounds(f, n, j, NumberOf(d), bits);
    OrdinaryExponent(f, bits, d);
    forall s: nat, e: int
      ensures Inside(f, n, j, Tens(s, e)) <==> CorrectlyRounded(f, Negative(bits), Tens(s, e), bits)
    {
      InsideRounds(f, n, j, Tens(s, e), bits);
    }
  }

  /** Prints a value after rounding it to the format. */
  method ToString(bits: nat, f: Format) returns (text: string, ghost d: DecimalNumber)
    requires bits < B128
    ensures IsNan(RoundToFormat(bits, f)) ==> text == "nan"
    ensures IsInfinite(RoundToFormat(bits, f)) ==> text == if Negative(RoundToFormat(bits, f)) then "-inf" else "inf"
    ensures IsZero(RoundToFormat(bits, f)) ==> text == if Negative(RoundToFormat(bits, f)) then "-0" else "0"
    ensures var rounded := RoundToFormat(bits, f);
      IsFinite(rounded) && !IsZero(rounded) ==>
        && d.digits != ""
        && text == SpellText(LayoutText(Negative(rounded), d))
        && ShortestText(f, rounded, LayoutText(Negative(rounded), d), d)
  {
    hide *;
    d := DecimalNumber("", 0);
    var rounded := RoundToFormat(bits, f);
    SpecialsApart(bits, f);
    if IsNan(rounded) { return "nan", d; }
    if IsInfinite(rounded) { return if Negative(rounded) then "-inf" else "inf", d; }
    if IsZero(rounded) { return if Negative(rounded) then "-0" else "0", d; }
    ghost var n, j := EncodedFinite(bits, f);
    var (significand, exponent) := NormalizeTo(Unpack(rounded), f);
    var shortest := ShortestDecimal(f, significand, exponent);
    ShortestIsText(f, n, j, rounded, shortest);
    ShortestDigits(f, n, j, shortest);
    LayoutSpells(Negative(rounded), shortest);
    return LayoutDecimal(Negative(rounded), shortest), shortest;
  }

  lemma {:induction false} ShortestDigits(f: Format, n: nat, j: int, d: DecimalNumber)
    requires 0 < n && IsShortest(f, n, j, d)
    ensures d.digits != "" && Leading(d.digits)
  {
  }

  lemma {:induction false} SpecialsApart(bits: nat, f: Format)
    requires bits < B128
    ensures var r := RoundToFormat(bits, f);
      && r < B128 && (IsZero(r) ==> IsFinite(r)) && (IsFinite(r) ==> !IsNan(r) && !IsInfinite(r))
      && (!IsNan(r) ==> IsInfinite(r) || (IsFinite(r) && IsFinite(bits))) && !(IsNan(r) && IsInfinite(r))
  {
    hide RoundExact;
    var r := RoundToFormat(bits, f);
    if !IsNan(bits) {
      RoundedNotNan(bits, f);
      ZeroIsFinite(r);
    } else {
      ZeroIsFinite(bits);
    }
  }

  // ----- The round trip ---------------------------------------------------------------------------

  lemma {:induction false} WordStart(text: string)
    requires text in ["nan", "inf", "-inf"]
    ensures var body := text[SignLength(text)..];
      body != "" && !HasPrefix(body) && body[0] != '.' && (forall hex :: !IsDigit(hex, body[0]))
  {
    if text == "-inf" { assert text[1..] == "inf"; }
  }

  /** What is printed for infinities and NaN is no number. */
  lemma {:induction false} NotANumber(text: string, t: FloatText)
    requires text in ["nan", "inf", "-inf"] && ValidText(t)
    ensures SpellText(t) != text
  {
    if SpellText(t) == text {
      TextParts(t);
      NumeralStart(IsHex(t), t.numeral) by { hide Spell; }
      hide *;
      WordStart(text);
    }
  }

  function ZeroText(negative: bool): FloatText
  {
    FloatText(if negative then "-" else "", "", Numeral("0", false, "", None))
  }

  lemma {:induction false} ZeroTextReads(negative: bool)
    ensures ValidText(ZeroText(negative)) && KeptValue(IsHex(ZeroText(negative)), ZeroText(negative).numeral) == 0.0
    ensures SpellText(ZeroText(negative)) == if negative then "-0" else "0"
    ensures !IsHex(ZeroText(negative)) && IsNegative(ZeroText(negative)) == negative
  {
    hide RPow, ValueIn;
    assert "0" + "" == Zeros(1);
    ValueZeros(10, "0" + "");
  }

  lemma {:induction false} ZeroReadsBack(f: Format, v: nat, r: ParseResult)
    requires v < B128 && IsZero(v) && ReadsAs(f, Negative(v), 0.0, r)
    ensures r == ParseResult(v, OK)
  {
    hide CorrectlyRounded, Negative, IsZero;
    ZeroReads(f, Negative(v));
    RoundedUnique(f, Negative(v), 0.0, r.value, Zero(Negative(v)));
    ZeroPattern(Negative(v));
    ZeroIsFinite(v);
    UnpackCanonical(v);
    UnpackCanonical(Zero(Negative(v)));
    hide Zero, Magnitude, IsFinite;
    FiniteUnique(v, Zero(Negative(v)));
  }

  lemma {:induction false} ValueReadsBack(f: Format, v: nat, t: FloatText, d: DecimalNumber, r: ParseResult)
    requires v < B128 && IsFinite(v) && !IsZero(v) && ShortestText(f, v, t, d)
    requires ReadsAs(f, IsNegative(t), KeptValue(IsHex(t), t.numeral), r)
    ensures r == ParseResult(v, OK)
  {
    hide CorrectlyRounded, Negative, IsZero, IsFinite, KeptValue, NumeralValue, NumberOf, Tens, Pow, ValidNumeral, HasDigits,
         WrittenExponent, StandardLayout;
    ParsedCorrectly(t, f, r);
    RoundedUnique(f, Negative(v), NumberOf(d), r.value, v);
    NotFiniteExcluded(v);
  }

  /** Printing a value and reading the text back gives the value again: signed zeros, subnormals and
      all. Infinities and NaN are printed as words that do not read back. */
  method PrintAndParse(bits: nat, f: Format) returns (r: ParseResult)
    requires bits < B128
    ensures IsFinite(RoundToFormat(bits, f)) ==> r == ParseResult(RoundToFormat(bits, f), OK)
    ensures IsValueOf(f, bits) ==> r == ParseResult(bits, OK)
    ensures !IsFinite(RoundToFormat(bits, f)) ==> r.status == MALFORMED
  {
    hide *;
    var text, d := ToString(bits, f);
    ghost var v := RoundToFormat(bits, f);
    SpecialsApart(bits, f);
    r := Parse(text, f);
    FiniteOrSpecial(v);
    if IsValueOf(f, bits) { ValueUnchanged(f, bits); }
    if !IsFinite(v) {
      forall t | ValidText(t)
        ensures SpellText(t) != text
      {
        NotANumber(text, t);
      }
    } else if IsZero(v) {
      ZeroTextReads(Negative(v));
      ZeroReadsBack(f, v, r);
    } else {
      TextIsValid(f, v, LayoutText(Negative(v), d), d);
      ValueReadsBack(f, v, LayoutText(Negative(v), d), d, r);
    }
  }

  lemma {:induction false} TextIsValid(f: Format, bits: nat, t: FloatText, d: DecimalNumber)
    requires ShortestText(f, bits, t, d)
    ensures ValidText(t)
  {
  }

  lemma {:induction false} FiniteOrSpecial(bits: nat)
    ensures IsFinite(bits) || IsNan(bits) || IsInfinite(bits)
  {
  }

  lemma {:induction false} ValueUnchanged(f: Format, bits: nat)
    requires IsValueOf(f, bits)
    ensures RoundToFormat(bits, f) == bits && IsFinite(bits)
  {
    hide RoundToFormat, Magnitude, Val, InFormat, IsFinite;
    var m: nat, k: int :| InFormat(f, m, k) && Magnitude(bits) == Val(m, k);
    RoundToFormatExact(bits, f, m, k);
  }
}
