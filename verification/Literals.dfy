/** Integer literals: the 128-bit fast path, the exact path, and the two ways one becomes a float. */
module Literals {
  import opened Powers
  import opened Limbs
  import opened Digits
  import opened BigInts
  import opened Formats
  import opened Rounding
  import opened FloatOps
  import opened ExactOps
  import opened Numerals
  import Parsing

  /** The digits of a literal without its separators. */
  function WithoutSeparators(digits: string): string
  {
    if digits == "" then ""
    else
      var last := |digits| - 1;
      WithoutSeparators(digits[..last]) + if digits[last] == '_' then "" else [digits[last]]
  }

  /** Digits of some base up to sixteen. */
  predicate AnyDigits(s: string)
  {
    DigitsIn(16, s)
  }

  lemma {:induction false} SeparatorStep(digits: string, i: nat)
    requires i < |digits|
    ensures WithoutSeparators(digits[..i + 1])
         == WithoutSeparators(digits[..i]) + if digits[i] == '_' then "" else [digits[i]]
  {
    assert digits[..i + 1][..i] == digits[..i];
  }

  /** What is kept of a prefix is a prefix of what is kept. */
  lemma {:induction false} KeptPrefix(digits: string, i: nat)
    requires i <= |digits|
    ensures WithoutSeparators(digits[..i]) <= WithoutSeparators(digits)
    decreases |digits| - i
  {
    if i == |digits| {
      assert digits[..i] == digits;
    } else {
      SeparatorStep(digits, i);
      KeptPrefix(digits, i + 1);
    }
  }

  lemma {:induction false} PrefixValue(base: nat, s: string, t: string)
    requires 1 < base && s <= t
    ensures ValueIn(base, s) <= ValueIn(base, t)
  {
    hide Pow, ValueIn;
    assert t == s + t[|s|..];
    ValueConcat(base, s, t[|s|..]);
    PowMono(base, 0, |t| - |s|);
    PowZero(base);
    MulMono(1, Pow(base, |t| - |s|), ValueIn(base, s));
  }

  // ----- The two readings ---------------------------------------------------------------------------

  /** Folds digits into 128 bits. Overflow is flagged exactly when the number does not fit, or some
      character is no digit at all. */
  method ParseU128(digits: string, radix: nat) returns (value: u128, overflow: bool)
    requires 2 <= radix <= 16
    ensures var kept := WithoutSeparators(digits);
      && (overflow <==> !AnyDigits(kept) || B128 <= ValueIn(radix, kept))
      && (!overflow ==> value == ValueIn(radix, kept))
  {
    hide ValueIn, WithoutSeparators, Pow;
    value, overflow := 0, false;
    NothingKept(digits, radix);
    for i := 0 to |digits|
      invariant AnyDigits(WithoutSeparators(digits[..i])) && value == ValueIn(radix, WithoutSeparators(digits[..i]))
    {
      SeparatorStep(digits, i);
      KeptPrefix(digits, i + 1);
      ghost var before := WithoutSeparators(digits[..i]);
      assert before + "" == before;
      if digits[i] != '_' {
        var d := DigitOf(digits[i]);
        ValueAppend(radix, before, digits[i]);
        if d >= 16 {
          NoDigit(before, digits[i], WithoutSeparators(digits));
          return value, true;
        }
        FitsNext(value, d, radix);
        if value > (B128 - 1 - d) / radix {
          PrefixValue(radix, before + [digits[i]], WithoutSeparators(digits));
          return value, true;
        }
        value := value * radix + d;
      }
    }
    assert digits[..|digits|] == digits;
  }

  lemma {:induction false} NothingKept(digits: string, radix: nat)
    ensures WithoutSeparators(digits[..0]) == "" && ValueIn(radix, "") == 0
  {
  }

  lemma {:induction false} NoDigit(before: string, c: char, kept: string)
    requires before + [c] <= kept && DigitOf(c) >= 16
    ensures !AnyDigits(kept)
  {
    assert kept[|before|] == c;
  }

  /** The division in the overflow test is the exact test. */
  lemma {:induction false} FitsNext(value: u128, d: nat, radix: nat)
    requires 2 <= radix && d < 16
    ensures value > (B128 - 1 - d) / radix <==> B128 <= value * radix + d
    ensures 0 <= value * radix + d
  {
    DivBelow(B128 - 1 - d, radix, value);
    MulMono(0, value, radix);
  }

  /** The unbounded path: separators dropped, every other character must be a digit of the base. */
  method ExactDigits(digits: string, base: nat) returns (r: Option<BigInt>)
    requires 2 <= base <= 16
    ensures var kept := WithoutSeparators(digits);
      && (r.Some? <==> kept != "" && DigitsIn(base, kept))
      && (r.Some? ==> r.value == Make(false, ValueIn(base, kept)))
  {
    hide ValueIn, WithoutSeparators;
    var kept := "";
    NothingKept(digits, base);
    for i := 0 to |digits|
      invariant kept == WithoutSeparators(digits[..i])
    {
      SeparatorStep(digits, i);
      if digits[i] != '_' { kept := kept + [digits[i]]; }
    }
    assert digits[..|digits|] == digits;
    r := Parse(kept, base);
  }

  // ----- Literals -----------------------------------------------------------------------------------

  /** A literal keeps its value when 128 bits hold it, and its digits when they do not. */
  datatype IntLiteral = IntLiteral(value: u128, base: nat, digits: string, isBig: bool)

  /** The number the digits of a literal denote. */
  function Denoted(l: IntLiteral): nat
  {
    ValueIn(l.base, WithoutSeparators(l.digits))
  }

  /** What the parser makes of digits that are valid in their base. */
  ghost predicate Literal(l: IntLiteral)
  {
    && 2 <= l.base <= 16 && WithoutSeparators(l.digits) != "" && DigitsIn(l.base, WithoutSeparators(l.digits))
    && (l.isBig <==> B128 <= Denoted(l)) && (!l.isBig ==> l.value == Denoted(l))
  }

  method MakeLiteral(digits: string, base: nat) returns (l: IntLiteral)
    requires 2 <= base <= 16 && WithoutSeparators(digits) != "" && DigitsIn(base, WithoutSeparators(digits))
    ensures Literal(l) && l.digits == digits && l.base == base
  {
    hide ValueIn, WithoutSeparators;
    var value, overflow := ParseU128(digits, base);
    l := IntLiteral(if overflow then 0 else value, base, digits, overflow);
  }

  /** Both paths yield the number the digits denote. */
  method ExactValue(l: IntLiteral) returns (v: BigInt)
    requires Literal(l)
    ensures v == Make(false, Denoted(l))
  {
    hide ValueIn, WithoutSeparators;
    if !l.isBig { return Make(false, l.value); }
    var exact := ExactDigits(l.digits, l.base);
    return exact.value;
  }

  /** The decimal text of a number, taken apart as a float. */
  function DecimalText(n: nat): Parsing.FloatText
  {
    Parsing.FloatText("", "", Numeral(Decimal(n), false, "", None))
  }

  lemma {:induction false} DecimalTextReads(n: nat)
    ensures Parsing.ValidText(DecimalText(n)) && Parsing.SpellText(DecimalText(n)) == Decimal(n)
    ensures !Parsing.IsHex(DecimalText(n)) && !Parsing.IsNegative(DecimalText(n))
    ensures Parsing.KeptValue(false, DecimalText(n).numeral) == n as real
  {
    hide ValueIn, RPow, Decimal;
    var s := Decimal(n);
    DecimalValue(n);
    IsDecimalDigits(s);
    assert forall i :: 0 <= i < |s| ==> IsDigit(false, s[i]);
    assert s + "" == s && "" + (s + "") == s && "" + ("" + (s + "")) == s;
    RPowZero(10);
  }

  /** As a float, whichever path is taken, a literal is the correct rounding of its exact integer. */
  method AsFloat(l: IntLiteral, f: Format) returns (bits: nat)
    requires Literal(l)
    ensures CorrectlyRounded(f, false, Denoted(l) as real, bits)
  {
    hide ValueIn, WithoutSeparators, CorrectlyRounded, RoundExact, Denoted, Val;
    if !l.isBig {
      ValWhole(l.value);
      WholeRounded(false, l.value, 0, f);
      return RoundExact(false, l.value, 0, false, f);
    }
    var exact := ExactValue(l);
    DecimalTextReads(exact.magnitude);
    var r := Parsing.Parse(ToString(exact), f);
    assert Parsing.ReadsAs(f, false, exact.magnitude as real, r) by {
      var t := DecimalText(exact.magnitude);
      assert Parsing.ValidText(t) && Parsing.SpellText(t) == ToString(exact);
      hide *;
    }
    return r.value;
  }

  /** Printing a number in decimal and parsing the digits gives it back; a sign is not parsed. */
  method PrintAndParse(v: BigInt) returns (r: Option<BigInt>)
    requires Normal(v)
    ensures r == if v.negative then None else Some(v)
  {
    hide ValueIn, Decimal;
    DecimalValue(v.magnitude);
    IsDecimalDigits(Decimal(v.magnitude));
    r := Parse(ToString(v), 10);
    if v.negative { assert DigitOf(ToString(v)[0]) == 16; }
  }

  /** And a canonical digit string comes back from the number it denotes. */
  lemma {:induction false} ParseAndPrint(s: string)
    requires CanonicalDecimal(s)
    ensures ToString(Make(false, ValueIn(10, s))) == s
  {
    hide ValueIn, Decimal;
    DecimalValue(ValueIn(10, s));
    CanonicalDecimalUnique(Decimal(ValueIn(10, s)), s);
  }
}
