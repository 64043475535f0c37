/** Digit strings in the bases up to sixteen, most significant digit first, and the canonical
    decimal string of a natural number. */
module Digits {
  import opened Powers

  datatype Option<T> = None | Some(value: T)

  /** The digit a character stands for, sixteen when it stands for none. */
  function DigitOf(c: char): (d: nat)
    ensures d <= 16
  {
    if '0' <= c <= '9' then c as int - '0' as int
    else if 'a' <= c <= 'f' then c as int - 'a' as int + 10
    else if 'A' <= c <= 'F' then c as int - 'A' as int + 10
    else 16
  }

  const LOWER_DIGITS := "0123456789abcdef"
  const UPPER_DIGITS := "0123456789ABCDEF"

  /** A digit is worth its place among the sixteen, in either case; nothing else is a digit. */
  lemma {:induction false} DigitPlaces(c: char, d: nat)
    ensures DigitOf(c) == d && d < 16 <==> d < 16 && (LOWER_DIGITS[d] == c || UPPER_DIGITS[d] == c)
  {
    if d < 16 {
      DigitAt(d);
      if DigitOf(c) == d { PlaceOf(c); }
    }
  }

  lemma {:induction false} DigitAt(d: nat)
    requires d < 16
    ensures DigitOf(LOWER_DIGITS[d]) == d && DigitOf(UPPER_DIGITS[d]) == d
  {
  }

  lemma {:induction false} PlaceOf(c: char)
    requires DigitOf(c) < 16
    ensures LOWER_DIGITS[DigitOf(c)] == c || UPPER_DIGITS[DigitOf(c)] == c
  {
  }

  predicate DigitsIn(base: nat, s: string)
  {
    forall i :: 0 <= i < |s| ==> DigitOf(s[i]) < base
  }

  function ValueIn(base: nat, s: string): nat
  {
    if s == "" then 0 else ValueIn(base, s[..|s| - 1]) * base + DigitOf(s[|s| - 1])
  }

  lemma {:induction false} ValueStep(base: nat, s: string, i: nat)
    requires i < |s|
    ensures ValueIn(base, s[..i + 1]) == ValueIn(base, s[..i]) * base + DigitOf(s[i])
  {
    assert s[..i + 1][..i] == s[..i];
  }

  lemma {:induction false} ValueAppend(base: nat, s: string, c: char)
    ensures ValueIn(base, s + [c]) == ValueIn(base, s) * base + DigitOf(c)
  {
    assert (s + [c])[..|s|] == s;
  }

  lemma {:induction false} ValueConcat(base: nat, s: string, t: string)
    ensures ValueIn(base, s + t) == ValueIn(base, s) * Pow(base, |t|) + ValueIn(base, t)
  {
    hide Pow;
    if t == "" {
      assert s + t == s;
      assert Pow(base, 0) == 1 by { PowZero(base); }
    } else {
      var n := |t| - 1;
      PowStep(base, n);
      ValueConcat(base, s, t[..n]);
      assert (s + t)[..|s + t| - 1] == s + t[..n];
      assert (s + t)[|s + t| - 1] == t[n];
      Horner(ValueIn(base, s), Pow(base, n), ValueIn(base, t[..n]), base);
    }
  }

  lemma {:induction false} Horner(v: int, p: int, w: int, base: int)
    ensures (v * p + w) * base == v * (base * p) + w * base
  {
    MulAssoc(v, p, base);
    assert (v * p + w) * base == v * p * base + w * base;
  }

  lemma {:induction false} ValueBound(base: nat, s: string)
    requires DigitsIn(base, s)
    ensures ValueIn(base, s) < Pow(base, |s|)
  {
    if s != "" {
      var n := |s| - 1;
      ValueBound(base, s[..n]);
      assert DigitOf(s[n]) < base;
      hide Pow;
      PowStep(base, n);
      assert (ValueIn(base, s[..n]) + 1) * base <= Pow(base, n) * base by {
        MulMono(ValueIn(base, s[..n]) + 1, Pow(base, n), base);
      }
    }
  }

  lemma {:induction false} ValueZeros(base: nat, s: string)
    requires forall i :: 0 <= i < |s| ==> s[i] == '0'
    ensures ValueIn(base, s) == 0
  {
    if s != "" { ValueZeros(base, s[..|s| - 1]); }
  }

  /** A leading digit other than zero makes a string worth at least a power of its base. */
  lemma {:induction false} ValueLeading(base: nat, s: string)
    requires s != "" && DigitsIn(base, s) && DigitOf(s[0]) != 0
    ensures Pow(base, |s| - 1) <= ValueIn(base, s)
  {
    assert s == s[..1] + s[1..];
    ValueConcat(base, s[..1], s[1..]);
    ValueStep(base, s, 0);
    MulMono(1, DigitOf(s[0]), Pow(base, |s| - 1));
  }

  // ----- Canonical decimal strings --------------------------------------------------------------

  function DigitChar(d: nat): (c: char)
    requires d < 10
    ensures DigitOf(c) == d && '0' <= c <= '9'
  {
    '0' + d as char
  }

  predicate IsDecimal(s: string)
  {
    forall i :: 0 <= i < |s| ==> '0' <= s[i] <= '9'
  }

  lemma {:induction false} IsDecimalDigits(s: string)
    ensures IsDecimal(s) <==> DigitsIn(10, s)
  {
    if DigitsIn(10, s) {
      forall i | 0 <= i < |s|
        ensures '0' <= s[i] <= '9'
      {
        assert DigitOf(s[i]) < 10;
      }
    }
  }

  /** No leading zero, except in `0` itself. */
  predicate CanonicalDecimal(s: string)
  {
    s != "" && IsDecimal(s) && (|s| > 1 ==> s[0] != '0')
  }

  /** The decimal string of a number, as `std::to_string` writes it. */
  function Decimal(n: nat): (s: string)
    ensures CanonicalDecimal(s)
    ensures n > 0 ==> s[0] != '0'
  {
    if n < 10 then [DigitChar(n)] else Decimal(n / 10) + [DigitChar(n % 10)]
  }

  lemma {:induction false} DecimalValue(n: nat)
    ensures ValueIn(10, Decimal(n)) == n
  {
    if n < 10 {
      assert Decimal(n) == "" + [DigitChar(n)];
      ValueAppend(10, "", DigitChar(n));
    } else {
      DecimalValue(n / 10);
      ValueAppend(10, Decimal(n / 10), DigitChar(n % 10));
    }
  }

  lemma {:induction false} DecimalDigit(c: char)
    requires '0' <= c <= '9'
    ensures DigitOf(c) < 10
  {
  }

  lemma {:induction false} SameDigit(c: char, d: char)
    requires '0' <= c <= '9' && '0' <= d <= '9' && DigitOf(c) == DigitOf(d)
    ensures c == d
  {
  }

  /** Equal lengths and equal values make equal decimal strings. */
  lemma {:induction false} DecimalUnique(s: string, t: string)
    requires IsDecimal(s) && IsDecimal(t) && |s| == |t| && ValueIn(10, s) == ValueIn(10, t)
    ensures s == t
  {
    hide ValueIn, DigitOf;
    if s != "" {
      var n := |s| - 1;
      assert s[..n + 1] == s && t[..n + 1] == t;
      ValueStep(10, s, n);
      ValueStep(10, t, n);
      DecimalDigit(s[n]);
      DecimalDigit(t[n]);
      DecimalUnique(s[..n], t[..n]);
      SameDigit(s[n], t[n]);
      assert s == s[..n] + [s[n]] && t == t[..n] + [t[n]];
    }
  }

  lemma {:induction false} ShorterCanonical(s: string, t: string)
    requires IsDecimal(s) && CanonicalDecimal(t) && |s| < |t| && s != ""
    ensures ValueIn(10, s) < ValueIn(10, t)
  {
    IsDecimalDigits(s);
    IsDecimalDigits(t);
    ValueBound(10, s);
    ValueLeading(10, t);
    PowMono(10, |s|, |t| - 1);
  }

  /** The canonical string is the only one without a leading zero. */
  lemma {:induction false} CanonicalDecimalUnique(s: string, t: string)
    requires CanonicalDecimal(s) && CanonicalDecimal(t) && ValueIn(10, s) == ValueIn(10, t)
    ensures s == t
  {
    if |s| < |t| { ShorterCanonical(s, t); }
    if |t| < |s| { ShorterCanonical(t, s); }
    DecimalUnique(s, t);
  }
}
