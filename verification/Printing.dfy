/** Printing floats: the shortest decimal that reads back as the value, nearest to it among those. */
module Printing {
  import opened Powers
  import opened Digits
  import opened BigUints
  import opened Formats
  import opened Rounding
  import opened Numerals
  import opened Shortest

  // ----- Decimals ---------------------------------------------------------------------------------

  /** `digits * 10^exponent`. */
  datatype DecimalNumber = DecimalNumber(digits: string, exponent: int)

  predicate Leading(s: string)
  {
    s != "" && IsDecimal(s) && s[0] != '0'
  }

  function NumberOf(d: DecimalNumber): real
  {
    Tens(ValueIn(10, d.digits), d.exponent)
  }

  function Zeros(count: nat): (s: string)
    ensures |s| == count && forall i :: 0 <= i < count ==> s[i] == '0'
  {
    seq(count, i => '0')
  }

  lemma {:induction false} AppendZeros(s: string, count: nat)
    ensures ValueIn(10, s + Zeros(count)) == ValueIn(10, s) * Pow(10, count)
  {
    hide Pow, ValueIn;
    ValueConcat(10, s, Zeros(count));
    ValueZeros(10, Zeros(count));
  }

  lemma {:induction false} PrependZeros(s: string, count: nat)
    ensures ValueIn(10, Zeros(count) + s) == ValueIn(10, s)
  {
    hide Pow, ValueIn;
    ValueConcat(10, Zeros(count), s);
    ValueZeros(10, Zeros(count));
  }

  lemma {:induction false} LeadingBounds(s: string)
    requires Leading(s)
    ensures Pow(10, |s| - 1) <= ValueIn(10, s) < Pow(10, |s|) && 0 < ValueIn(10, s)
  {
    hide Pow, ValueIn;
    IsDecimalDigits(s);
    ValueBound(10, s);
    ValueLeading(10, s);
  }

  function TrimTrailingZeros(number: DecimalNumber): (r: DecimalNumber)
    requires Leading(number.digits)
    ensures Leading(r.digits) && r.digits[|r.digits| - 1] != '0'
    ensures r.digits <= number.digits && r.exponent == number.exponent + |number.digits| - |r.digits|
    ensures number.digits == r.digits + Zeros(|number.digits| - |r.digits|)
    decreases |number.digits|
  {
    var last := |number.digits| - 1;
    if number.digits[last] == '0' then TrimTrailingZeros(DecimalNumber(number.digits[..last], number.exponent + 1))
    else number
  }

  lemma {:induction false} TrimValue(number: DecimalNumber)
    requires Leading(number.digits)
    ensures NumberOf(TrimTrailingZeros(number)) == NumberOf(number)
  {
    hide Pow, ValueIn, Tens, TrimTrailingZeros;
    var r := TrimTrailingZeros(number);
    AppendZeros(r.digits, |number.digits| - |r.digits|);
    TensShift(ValueIn(10, r.digits), number.exponent, |number.digits| - |r.digits|);
  }

  /** The digit string worth one more, which is longer only when every digit was a nine. */
  method IncrementDigits(digits: string) returns (r: string)
    requires Leading(digits)
    ensures Leading(r) && ValueIn(10, r) == ValueIn(10, digits) + 1
    ensures |r| == |digits| || r == "1" + Zeros(|digits|)
  {
    hide ValueIn, Pow;
    r := digits;
    var i := |digits|;
    assert r == digits[..i] + Zeros(0);
    ghost var nines := 0;
    Carry(digits, i);
    while i > 0
      invariant 0 <= i <= |digits| && nines == |digits| - i && r == digits[..i] + Zeros(nines)
      invariant ValueIn(10, digits) + 1 == (ValueIn(10, digits[..i]) + 1) * Pow(10, nines)
    {
      i := i - 1;
      ValueStep(10, digits, i);
      if r[i] != '9' {
        r := r[i := r[i] + 1 as char];
        Incremented(digits, i, r, nines);
        return;
      }
      CarryOn(digits, i, nines);
      r := r[i := '0'];
      nines := nines + 1;
      assert r == digits[..i] + Zeros(nines);
    }
    EmptyValue(10, digits);
    r := "1" + r;
    assert r == "1" + Zeros(nines);
    AppendZeros("1", nines);
    OneDigit('1');
  }

  lemma {:induction false} OneDigit(c: char)
    ensures ValueIn(10, [c]) == DigitOf(c)
  {
    assert "" + [c] == [c];
    ValueAppend(10, "", c);
  }

  lemma {:induction false} Carry(digits: string, i: nat)
    requires i == |digits|
    ensures ValueIn(10, digits) + 1 == (ValueIn(10, digits[..i]) + 1) * Pow(10, 0)
  {
    hide ValueIn;
    assert digits[..i] == digits;
  }

  lemma {:induction false} CarryOn(digits: string, i: nat, nines: nat)
    requires i < |digits| && digits[i] == '9'
    requires ValueIn(10, digits) + 1 == (ValueIn(10, digits[..i + 1]) + 1) * Pow(10, nines)
    ensures ValueIn(10, digits) + 1 == (ValueIn(10, digits[..i]) + 1) * Pow(10, nines + 1)
  {
    hide ValueIn, Pow;
    ValueStep(10, digits, i);
    PowStep(10, nines);
    MulAssoc(ValueIn(10, digits[..i]) + 1, 10, Pow(10, nines));
  }

  lemma {:induction false} Incremented(digits: string, i: nat, r: string, nines: nat)
    requires Leading(digits) && i < |digits| && digits[i] != '9' && nines == |digits| - i - 1
    requires ValueIn(10, digits) + 1 == (ValueIn(10, digits[..i + 1]) + 1) * Pow(10, nines)
    requires r == digits[..i] + [digits[i] + 1 as char] + Zeros(nines)
    ensures Leading(r) && ValueIn(10, r) == ValueIn(10, digits) + 1
  {
    hide ValueIn, Pow;
    var c := digits[i] + 1 as char;
    ValueStep(10, digits, i);
    ValueAppend(10, digits[..i], c);
    AppendZeros(digits[..i] + [c], nines);
    assert '0' <= digits[i] <= '9';
    assert r[0] == if i == 0 then c else digits[0];
  }

  // ----- Comparing digit strings ------------------------------------------------------------------

  function CompareStrings(lhs: string, rhs: string): Ordering
    requires |lhs| == |rhs|
  {
    if lhs == "" then Equal
    else if lhs[0] != rhs[0] then if lhs[0] < rhs[0] then Less else Greater
    else CompareStrings(lhs[1..], rhs[1..])
  }

  /** With no leading zeros, the longer string is the larger number. */
  function CompareDigits(lhs: string, rhs: string): Ordering
  {
    if |lhs| < |rhs| then Less else if |lhs| > |rhs| then Greater else CompareStrings(lhs, rhs)
  }

  lemma {:induction false} FirstDigit(s: string)
    requires IsDecimal(s) && s != ""
    ensures ValueIn(10, s) == DigitOf(s[0]) * Pow(10, |s| - 1) + ValueIn(10, s[1..])
    ensures ValueIn(10, s[1..]) < Pow(10, |s| - 1)
  {
    hide ValueIn, Pow;
    assert s == [s[0]] + s[1..];
    ValueConcat(10, [s[0]], s[1..]);
    OneDigit(s[0]);
    IsDecimalDigits(s[1..]);
    ValueBound(10, s[1..]);
  }

  lemma {:induction false} FirstDecides(c: int, d: int, p: int, v: int, w: int)
    requires 0 <= v < p && 0 <= w < p
    ensures Compared(c * p + v, d * p + w) == if c == d then Compared(v, w) else Compared(c, d)
  {
    if c < d { NextMultiple(c, d, p); }
    if d < c { NextMultiple(d, c, p); }
    DecidedBy(c, d, p, v, w, c * p, d * p);
  }

  lemma {:induction false} NextMultiple(c: int, d: int, p: int)
    requires c < d && 0 <= p
    ensures c * p + p <= d * p
  {
    MulMono(c + 1, d, p);
  }

  lemma {:induction false} DecidedBy(c: int, d: int, p: int, v: int, w: int, cp: int, dp: int)
    requires 0 <= v < p && 0 <= w < p && (c == d ==> cp == dp)
    requires (c < d ==> cp + p <= dp) && (d < c ==> dp + p <= cp)
    ensures Compared(cp + v, dp + w) == if c == d then Compared(v, w) else Compared(c, d)
  {
  }

  lemma {:induction false} CompareStringsNumeric(lhs: string, rhs: string)
    requires |lhs| == |rhs| && IsDecimal(lhs) && IsDecimal(rhs)
    ensures CompareStrings(lhs, rhs) == Compared(ValueIn(10, lhs), ValueIn(10, rhs))
  {
    hide ValueIn, Pow;
    if lhs == "" {
      assert lhs == rhs;
    } else {
      CompareStringsNumeric(lhs[1..], rhs[1..]);
      FirstDigit(lhs);
      FirstDigit(rhs);
      assert '0' <= lhs[0] <= '9' && '0' <= rhs[0] <= '9';
      FirstDecides(DigitOf(lhs[0]), DigitOf(rhs[0]), Pow(10, |lhs| - 1), ValueIn(10, lhs[1..]), ValueIn(10, rhs[1..]));
    }
  }

  /** Without leading zeros, the order of digit strings is that of their numbers. */
  lemma {:induction false} CompareDigitsNumeric(lhs: string, rhs: string)
    requires Leading(lhs) && Leading(rhs)
    ensures CompareDigits(lhs, rhs) == Compared(ValueIn(10, lhs), ValueIn(10, rhs))
  {
    hide ValueIn, Pow, CompareStrings;
    if |lhs| < |rhs| {
      ShorterCanonical(lhs, rhs);
    } else if |rhs| < |lhs| {
      ShorterCanonical(rhs, lhs);
    } else {
      CompareStringsNumeric(lhs, rhs);
    }
  }

  // ----- The interval, in decimal -----------------------------------------------------------------

  /** The midpoints to the neighbouring values and the value itself, as integers times `10^scale`. */
  datatype RoundTripInterval = RoundTripInterval(low: string, exact: string, high: string, scale: int, even: bool)

  /** `m * 2^e` is this factor times `m`, at a scale of `10^e` when the exponent is negative. */
  function DecimalFactor(e: int): (c: nat)
    ensures 0 < c
  {
    if e >= 0 then P2(e) else Pow(5, -e)
  }

  function DecimalScale10(e: int): int
  {
    if e >= 0 then 0 else e
  }

  lemma {:induction false} DecimalForm(m: nat, e: int)
    ensures Tens(m * DecimalFactor(e), DecimalScale10(e)) == Val(m, e)
  {
    hide RPow, Pow, P2;
    var c := DecimalFactor(e);
    RealMul(m, c);
    if e >= 0 {
      RPowZero(10);
      TwoNat(e);
    } else {
      RPowNat(5, -e);
      RPowInverse(5, -e);
      RPowMul(2, 5, e);
      FivesCancel(m as real, c as real, RPow(2, e), RPow(5, e), RPow(10, e));
    }
  }

  lemma {:induction false} FivesCancel(m: real, c: real, two: real, five: real, ten: real)
    requires ten == two * five && five * c == 1.0
    ensures (m * c) * ten == m * two
  {
    assert c * ten == two by {
      assert c * (two * five) == two * (five * c);
    }
    RMulAssoc(m, c, ten);
  }

  function MakeInterval(f: Format, significand: nat, exponent: int): RoundTripInterval
    requires 0 < significand
  {
    var scaled, e := 4 * significand, exponent - 2;
    var c := DecimalFactor(e);
    MulMono(0, scaled - LowerGap(f, significand, exponent), c);
    RoundTripInterval(Decimal((scaled - LowerGap(f, significand, exponent)) * c), Decimal(scaled * c),
                      Decimal((scaled + 2) * c), DecimalScale10(e), significand % 2 == 0)
  }

  function ExactDecimal(interval: RoundTripInterval): (d: DecimalNumber)
    requires Leading(interval.exact)
  {
    TrimTrailingZeros(DecimalNumber(interval.exact, interval.scale))
  }

  predicate Contains(interval: RoundTripInterval, candidate: DecimalNumber)
    requires interval.scale <= candidate.exponent
  {
    var scaled := candidate.digits + Zeros(candidate.exponent - interval.scale);
    var aboveLow := CompareDigits(scaled, interval.low);
    var belowHigh := CompareDigits(scaled, interval.high);
    if aboveLow == Less || belowHigh == Greater then false
    else
      var onMidpoint := aboveLow == Equal || belowHigh == Equal;
      !onMidpoint || interval.even
  }

  lemma {:induction false} PositiveDecimal(n: nat, c: nat)
    requires 0 < n && 0 < c
    ensures Leading(Decimal(n * c)) && ValueIn(10, Decimal(n * c)) == n * c
  {
    hide ValueIn, Decimal;
    MulStrict(0, n, c);
    DecimalValue(n * c);
  }

  /** The bounds of the interval, read back. */
  lemma {:induction false} IntervalBounds(f: Format, n: nat, j: int)
    requires 0 < n
    ensures var i := MakeInterval(f, n, j);
      && Leading(i.low) && Leading(i.exact) && Leading(i.high)
      && NumberOf(DecimalNumber(i.low, i.scale)) == Low(f, n, j)
      && NumberOf(DecimalNumber(i.exact, i.scale)) == Val(n, j)
      && NumberOf(DecimalNumber(i.high, i.scale)) == High(n, j)
  {
    hide ValueIn, Pow, P2, RPow, Val, Tens, Decimal, DecimalFactor, Leading;
    var c := DecimalFactor(j - 2);
    PositiveDecimal(4 * n - LowerGap(f, n, j), c);
    PositiveDecimal(4 * n, c);
    PositiveDecimal(4 * n + 2, c);
    DecimalForm(4 * n - LowerGap(f, n, j), j - 2);
    DecimalForm(4 * n, j - 2);
    DecimalForm(4 * n + 2, j - 2);
    Quarters(n, j);
  }

  lemma {:induction false} ComparedTens(a: nat, b: nat, e: int)
    ensures Tens(a, e) < Tens(b, e) <==> Compared(a, b) == Less
    ensures Tens(a, e) == Tens(b, e) <==> Compared(a, b) == Equal
  {
    hide Tens;
    TensOrder(a, b, e);
    TensOrder(b, a, e);
  }

  lemma {:induction false} ScaledCompare(candidate: DecimalNumber, bound: string, scale: int)
    requires Leading(candidate.digits) && Leading(bound) && scale <= candidate.exponent
    ensures var scaled := candidate.digits + Zeros(candidate.exponent - scale);
      var x, y := NumberOf(candidate), NumberOf(DecimalNumber(bound, scale));
      (CompareDigits(scaled, bound) == Less <==> x < y) && (CompareDigits(scaled, bound) == Equal <==> x == y)
  {
    hide ValueIn, Pow, RPow, Tens, CompareDigits;
    var count := candidate.exponent - scale;
    var scaled := candidate.digits + Zeros(count);
    AppendZeros(candidate.digits, count);
    TensShift(ValueIn(10, candidate.digits), scale, count);
    CompareDigitsNumeric(scaled, bound);
    ComparedTens(ValueIn(10, scaled), ValueIn(10, bound), scale);
  }

  lemma {:induction false} IntervalScale(f: Format, n: nat, j: int)
    requires 0 < n
    ensures MakeInterval(f, n, j).scale == DecimalScale10(j - 2) && MakeInterval(f, n, j).even == (n % 2 == 0)
  {
    hide Decimal, DecimalFactor, DecimalScale10;
  }

  lemma {:induction false} ContainsCases(interval: RoundTripInterval, candidate: DecimalNumber, low: Ordering, high: Ordering)
    requires interval.scale <= candidate.exponent
    requires low == CompareDigits(candidate.digits + Zeros(candidate.exponent - interval.scale), interval.low)
    requires high == CompareDigits(candidate.digits + Zeros(candidate.exponent - interval.scale), interval.high)
    ensures Contains(interval, candidate)
       <==> low != Less && high != Greater && (low == Equal || high == Equal ==> interval.even)
  {
    hide CompareDigits;
  }

  /** Comparing digit strings decides whether a candidate reads back as the value. */
  lemma {:induction false} ContainsInside(f: Format, n: nat, j: int, candidate: DecimalNumber)
    requires 0 < n && Leading(candidate.digits) && DecimalScale10(j - 2) <= candidate.exponent
    ensures Contains(MakeInterval(f, n, j), candidate) <==> Inside(f, n, j, NumberOf(candidate))
  {
    hide Low, High, CompareDigits, MakeInterval, NumberOf, Leading, DecimalScale10, Contains, ValueIn, Val;
    var i := MakeInterval(f, n, j);
    IntervalBounds(f, n, j);
    IntervalScale(f, n, j);
    ScaledCompare(candidate, i.low, i.scale);
    ScaledCompare(candidate, i.high, i.scale);
    var scaled := candidate.digits + Zeros(candidate.exponent - i.scale);
    ContainsCases(i, candidate, CompareDigits(scaled, i.low), CompareDigits(scaled, i.high));
  }

  // ----- Choosing the shortest --------------------------------------------------------------------

  /** The two neighbours with `length` digits, the nearer first, on a tie the one with the even last
      digit. */
  method CandidatesOf(exact: DecimalNumber, length: nat)
    returns (first: DecimalNumber, second: DecimalNumber)
    requires Leading(exact.digits) && 0 < length < |exact.digits| && exact.digits[|exact.digits| - 1] != '0'
    ensures var place := exact.exponent + (|exact.digits| - length);
      && Candidate(first, length, place) && Candidate(second, length, place)
      && HalfEven(NumberOf(exact), RPow(10, place), ValueIn(10, first.digits))
    ensures var place, floor := exact.exponent + (|exact.digits| - length), ValueIn(10, exact.digits[..length]);
      && Pow(10, length - 1) <= floor && Tens(floor, place) < NumberOf(exact) < Tens(floor + 1, place)
      && {ValueIn(10, first.digits), ValueIn(10, second.digits)} == {floor, floor + 1}
  {
    hide ValueIn, Pow, RPow, Tens, HalfEven;
    var dropped := exact.digits[length..];
    var place := exact.exponent + (|exact.digits| - length);
    var lower := DecimalNumber(exact.digits[..length], place);
    var digits := IncrementDigits(lower.digits);
    var upper := DecimalNumber(digits, place);
    LeadingBounds(lower.digits);

    var restNonzero := exists i :: 1 <= i < |dropped| && dropped[i] != '0';
    var ceilFirst := dropped[0] > '5' || (dropped[0] == '5' && restNonzero);
    if dropped[0] == '5' && !restNonzero {
      var last := lower.digits[|lower.digits| - 1];
      ceilFirst := (last as int - '0' as int) % 2 != 0;
    }
    NearerFirst(exact, length, restNonzero);
    if ceilFirst { return upper, lower; }
    return lower, upper;
  }

  predicate Candidate(d: DecimalNumber, length: nat, place: int)
  {
    && Leading(d.digits) && d.exponent == place
    && (|d.digits| == length || d.digits == "1" + Zeros(length))
  }

  /** The dropped digits decide which neighbour is nearer. */
  lemma {:induction false} NearerFirst(exact: DecimalNumber, length: nat, restNonzero: bool)
    requires Leading(exact.digits) && 0 < length < |exact.digits| && exact.digits[|exact.digits| - 1] != '0'
    requires restNonzero <==> exists i :: 1 <= i < |exact.digits| - length && exact.digits[length..][i] != '0'
    ensures var place := exact.exponent + (|exact.digits| - length);
      var floor, half, dropped := exact.digits[..length], '5', exact.digits[length];
      var d := ValueIn(10, floor);
      var odd := (floor[length - 1] as int - '0' as int) % 2 != 0;
      var up := dropped > half || (dropped == half && (restNonzero || odd));
      && Tens(d, place) < NumberOf(exact) < Tens(d + 1, place)
      && HalfEven(NumberOf(exact), RPow(10, place), if up then d + 1 else d)
  {
    hide ValueIn, Pow, RPow, Tens, HalfEven;
    var rest := |exact.digits| - length;
    var floor, dropped := exact.digits[..length], exact.digits[length..];
    var d, r := ValueIn(10, floor), ValueIn(10, dropped);
    SplitNumber(exact, length, d, r);
    PowStep(10, rest - 1);
    DroppedValue(dropped, restNonzero, Pow(10, rest - 1));
    LastDigitParity(floor);
    BetweenTens(d, r, Pow(10, rest), exact.exponent, rest);
    var up := dropped[0] > '5' || (dropped[0] == '5' && (restNonzero || d % 2 != 0));
    HalfEvenTens(d, r, Pow(10, rest), exact.exponent, rest, if up then d + 1 else d);
  }

  lemma {:induction false} SplitNumber(exact: DecimalNumber, length: nat, d: nat, r: nat)
    requires length <= |exact.digits|
    requires d == ValueIn(10, exact.digits[..length]) && r == ValueIn(10, exact.digits[length..])
    ensures NumberOf(exact) == Tens(d * Pow(10, |exact.digits| - length) + r, exact.exponent)
  {
    hide ValueIn, Pow, Tens;
    assert exact.digits == exact.digits[..length] + exact.digits[length..];
    ValueConcat(10, exact.digits[..length], exact.digits[length..]);
  }

  lemma {:induction false} BetweenTens(d: nat, r: nat, p: nat, e: int, rest: nat)
    requires p == Pow(10, rest) && 0 < r < p
    ensures Tens(d, e + rest) < Tens(d * p + r, e) < Tens(d + 1, e + rest)
  {
    hide Pow, Tens;
    TensShift(d, e, rest);
    TensShift(d + 1, e, rest);
    TensOrder(d * p, d * p + r, e);
    TensOrder(d * p + r, (d + 1) * p, e);
  }

  lemma {:induction false} LastDigitParity(s: string)
    requires IsDecimal(s) && s != ""
    ensures ValueIn(10, s) % 2 == (s[|s| - 1] as int - '0' as int) % 2
  {
    var v, digit := ValueIn(10, s[..|s| - 1]), DigitOf(s[|s| - 1]);
    hide ValueIn, DigitOf;
    ValueStep(10, s, |s| - 1);
    assert s[..|s| - 1 + 1] == s;
    EvenDigits(v, digit);
  }

  lemma {:induction false} EvenDigits(v: nat, digit: nat)
    ensures (v * 10 + digit) % 2 == digit % 2
  {
  }

  /** A nonzero run of digits against five and zeros. */
  lemma {:induction false} DroppedValue(dropped: string, restNonzero: bool, h: nat)
    requires IsDecimal(dropped) && dropped != "" && dropped[|dropped| - 1] != '0' && h == Pow(10, |dropped| - 1)
    requires restNonzero <==> exists i :: 1 <= i < |dropped| && dropped[i] != '0'
    ensures 0 < ValueIn(10, dropped) < 10 * h
    ensures ValueIn(10, dropped) > 5 * h <==> dropped[0] > '5' || (dropped[0] == '5' && restNonzero)
    ensures ValueIn(10, dropped) == 5 * h <==> dropped[0] == '5' && !restNonzero
  {
    hide ValueIn, Pow;
    FirstDigit(dropped);
    var rest := dropped[1..];
    assert IsDecimal(rest);
    if restNonzero {
      var i :| 1 <= i < |dropped| && dropped[i] != '0';
      assert rest[i - 1] != '0';
      NonzeroValue(rest, i - 1);
    } else {
      ValueZeros(10, rest);
      assert |dropped| == 1;
      PowZero(10);
    }
    DigitTimes(DigitOf(dropped[0]), ValueIn(10, rest), h);
  }

  lemma {:induction false} DigitTimes(c: nat, r: nat, h: nat)
    requires c < 10 && r < h
    ensures c * h + r < 10 * h
    ensures c * h + r > 5 * h <==> c > 5 || (c == 5 && 0 < r)
    ensures c * h + r == 5 * h <==> c == 5 && r == 0
  {
    if c < 5 { MulMono(c + 1, 5, h); }
    if c > 5 { MulMono(6, c, h); }
    MulMono(c + 1, 10, h);
  }

  lemma {:induction false} NonzeroValue(s: string, i: nat)
    requires IsDecimal(s) && i < |s| && s[i] != '0'
    ensures 0 < ValueIn(10, s)
  {
    var n := |s| - 1;
    if i == n {
      assert '0' <= s[n] <= '9';
    } else {
      NonzeroValue(s[..n], i);
      MulStrict(0, ValueIn(10, s[..n]), 10);
    }
  }

  lemma {:induction false} HalfEvenTens(d: nat, r: nat, p: nat, e: int, rest: nat, n: nat)
    requires p == Pow(10, rest) && 0 < r < p
    requires n == if 2 * r > p || (2 * r == p && d % 2 != 0) then d + 1 else d
    ensures HalfEven(Tens(d * p + r, e), RPow(10, e + rest), n)
  {
    hide Pow, RPow;
    RPowNat(10, rest);
    RPowAdd(10, e, rest);
    var u := RPow(10, e);
    UnitsHalfEven(d, r, p, n);
    HalfEvenScale((d * p + r) as real, p as real, n, u, Tens(d * p + r, e), RPow(10, e + rest));
  }

  lemma {:induction false} UnitsHalfEven(d: nat, r: nat, p: nat, n: nat)
    requires 0 < r < p
    requires n == if 2 * r > p || (2 * r == p && d % 2 != 0) then d + 1 else d
    ensures HalfEven((d * p + r) as real, p as real, n)
  {
    RealMul(n, p);
    assert (d + 1) * p == d * p + p;
  }

  /** No decimal with at most `length` digits reads back as the value. */
  ghost predicate NoneWithin(f: Format, n: nat, j: int, length: nat)
    requires 0 < n
  {
    forall s: nat, e: int :: s < Pow(10, length) ==> !Inside(f, n, j, Tens(s, e))
  }

  /** The decimal reads back as the value, none with fewer digits does, and of those with as many
      that do none is nearer. */
  ghost predicate IsShortest(f: Format, n: nat, j: int, d: DecimalNumber)
    requires 0 < n
  {
    && Leading(d.digits) && Inside(f, n, j, NumberOf(d)) && NoneWithin(f, n, j, |d.digits| - 1)
    && forall s: nat, e: int :: s < Pow(10, |d.digits|) && Inside(f, n, j, Tens(s, e)) ==>
         Abs(NumberOf(d) - Val(n, j)) <= Abs(Tens(s, e) - Val(n, j))
  }

  lemma {:induction false} NoneWithinZero(f: Format, n: nat, j: int)
    requires 0 < n
    ensures NoneWithin(f, n, j, 0)
  {
    hide Low, High, RPow, Two, LowerGap;
    var v := Two(j - 2);
    IntervalUnits(f, n, j, v, (4 * n) as real * v, LowerGap(f, n, j) as real * v);
    PowZero(10);
  }

  lemma {:induction false} ExactIsShortest(f: Format, n: nat, j: int, exact: DecimalNumber)
    requires 0 < n && Leading(exact.digits) && NumberOf(exact) == Val(n, j)
    requires NoneWithin(f, n, j, |exact.digits| - 1)
    ensures IsShortest(f, n, j, exact)
  {
    hide Low, High, RPow, Two, LowerGap, Pow, ValueIn, NumberOf, Val, NoneWithin;
    var v := Two(j - 2);
    IntervalUnits(f, n, j, v, (4 * n) as real * v, LowerGap(f, n, j) as real * v);
  }

  /** Neither candidate inside: nothing of that length is. */
  lemma {:induction false} NoneOfLength(f: Format, n: nat, j: int, d: nat, q: int, length: nat)
    requires 0 < n && Tens(d, q) < Val(n, j) < Tens(d + 1, q) && 0 < length && Pow(10, length - 1) <= d
    requires !Inside(f, n, j, Tens(d, q)) && !Inside(f, n, j, Tens(d + 1, q))
    ensures NoneWithin(f, n, j, length)
  {
    hide Inside, Tens, Pow, Val;
    forall s: nat, e: int | s < Pow(10, length)
      ensures !Inside(f, n, j, Tens(s, e))
    {
      if Inside(f, n, j, Tens(s, e)) { CandidatesSuffice(f, n, j, d, q, length, s, e); }
    }
  }

  /** The first candidate found inside is the nearest of its length that is. */
  lemma {:induction false} CandidateIsShortest(f: Format, n: nat, j: int, d: nat, q: int, length: nat, c: nat, best: DecimalNumber)
    requires 0 < n && Tens(d, q) < Val(n, j) < Tens(d + 1, q) && 0 < length && Pow(10, length - 1) <= d
    requires c in {d, d + 1} && Inside(f, n, j, Tens(c, q))
    requires HalfEven(Val(n, j), RPow(10, q), c) || !Inside(f, n, j, Tens(d + d + 1 - c, q))
    requires Leading(best.digits) && |best.digits| <= length && NumberOf(best) == Tens(c, q)
    requires NoneWithin(f, n, j, length - 1)
    ensures IsShortest(f, n, j, best)
  {
    hide Inside, Pow, Val, RPow, ValueIn, NumberOf;
    PowMono(10, |best.digits| - 1, length - 1);
    PowMono(10, |best.digits|, length);
    TensNext(d, q);
    forall s: nat, e: int | s < Pow(10, |best.digits|) && Inside(f, n, j, Tens(s, e))
      ensures Abs(NumberOf(best) - Val(n, j)) <= Abs(Tens(s, e) - Val(n, j))
    {
      CandidatesSuffice(f, n, j, d, q, length, s, e);
      hide Tens;
    }
  }

  lemma {:induction false} TensNext(d: nat, q: int)
    ensures Tens(d + 1, q) == Tens(d, q) + RPow(10, q)
    ensures forall c: nat :: Tens(c, q) == c as real * RPow(10, q)
  {
    hide RPow;
  }

  method ShortestDecimal(f: Format, significand: nat, exponent: int) returns (d: DecimalNumber)
    requires 0 < significand
    ensures IsShortest(f, significand, exponent, d)
  {
    hide *;
    var interval := MakeInterval(f, significand, exponent);
    ghost var n, j := significand, exponent;
    IntervalBounds(f, n, j);
    var exact := ExactDecimal(interval);
    ExactFacts(f, n, j, interval, exact);
    NoneWithinZero(f, n, j);
    var length := 1;
    while length < |exact.digits|
      invariant 1 <= length <= |exact.digits| && NoneWithin(f, n, j, length - 1)
    {
      var first, second := CandidatesOf(exact, length);
      ghost var floor := ValueIn(10, exact.digits[..length]);
      ghost var place := exact.exponent + (|exact.digits| - length);
      CandidateContained(f, n, j, first, length, place, interval);
      CandidateContained(f, n, j, second, length, place, interval);
      if Contains(interval, first) {
        d := TrimTrailingZeros(first);
        TrimmedCandidate(first, length, place);
        CandidateIsShortest(f, n, j, floor, place, length, ValueIn(10, first.digits), d);
        return;
      }
      if Contains(interval, second) {
        d := TrimTrailingZeros(second);
        TrimmedCandidate(second, length, place);
        CandidateIsShortest(f, n, j, floor, place, length, ValueIn(10, second.digits), d);
        return;
      }
      NoneOfLength(f, n, j, floor, place, length);
      length := length + 1;
    }
    ExactIsShortest(f, n, j, exact);
    return exact;
  }

  lemma {:induction false} ExactFacts(f: Format, n: nat, j: int, interval: RoundTripInterval, exact: DecimalNumber)
    requires 0 < n && interval == MakeInterval(f, n, j) && Leading(interval.exact) && exact == ExactDecimal(interval)
    ensures Leading(exact.digits) && exact.digits[|exact.digits| - 1] != '0' && |exact.digits| > 0
    ensures DecimalScale10(j - 2) == interval.scale <= exact.exponent
    ensures NumberOf(exact) == Val(n, j)
  {
    IntervalBounds(f, n, j);
    TrimValue(DecimalNumber(interval.exact, interval.scale));
    hide Tens, ValueIn, Pow, P2, Val, Decimal;
  }

  lemma {:induction false} CandidateContained(f: Format, n: nat, j: int, c: DecimalNumber, length: nat, place: int,
      interval: RoundTripInterval)
    requires 0 < n && interval == MakeInterval(f, n, j) && Candidate(c, length, place) && interval.scale <= place
    requires DecimalScale10(j - 2) == interval.scale
    ensures Leading(c.digits) && c.exponent == place
    ensures NumberOf(c) == Tens(ValueIn(10, c.digits), place)
    ensures Contains(interval, c) <==> Inside(f, n, j, Tens(ValueIn(10, c.digits), place))
  {
    hide Tens, ValueIn, Inside, Contains, MakeInterval;
    ContainsInside(f, n, j, c);
  }

  /** Trimming keeps the number, and leaves no more digits than were asked for. */
  lemma {:induction false} TrimmedCandidate(c: DecimalNumber, length: nat, place: int)
    requires Candidate(c, length, place) && 0 < length
    ensures Leading(TrimTrailingZeros(c).digits) && |TrimTrailingZeros(c).digits| <= length
    ensures NumberOf(TrimTrailingZeros(c)) == Tens(ValueIn(10, c.digits), place)
  {
    hide Tens, ValueIn, TrimTrailingZeros;
    TrimValue(c);
    var r := TrimTrailingZeros(c);
  }
}
