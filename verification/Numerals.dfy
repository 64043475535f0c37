/** The text of decimal and hexadecimal numbers: a grammar given by how a numeral is spelled, the
    number a numeral denotes, and the scanner that inverts the spelling. */
module Numerals {
  import opened Powers
  import opened Digits

  // ----- The grammar ------------------------------------------------------------------------------

  /** `<whole>[.<fraction>][<marker><exponent>]`. */
  datatype Numeral = Numeral(whole: string, point: bool, fraction: string, exponent: Option<ExponentPart>)
  datatype ExponentPart = ExponentPart(marker: char, text: string)

  predicate IsDigit(hex: bool, c: char)
  {
    DigitOf(c) < if hex then 16 else 10
  }

  predicate AllDigits(hex: bool, s: string)
  {
    forall i :: 0 <= i < |s| ==> IsDigit(hex, s[i])
  }

  predicate IsMarker(hex: bool, c: char)
  {
    if hex then c == 'p' || c == 'P' else c == 'e' || c == 'E'
  }

  predicate IsSign(c: char)
  {
    c == '+' || c == '-'
  }

  /** The digits of an exponent, after its optional sign. */
  function ExponentDigits(text: string): string
  {
    if text != "" && IsSign(text[0]) then text[1..] else text
  }

  predicate IsExponent(text: string)
  {
    ExponentDigits(text) != "" && IsDecimal(ExponentDigits(text))
  }

  function ExponentValue(text: string): int
  {
    var magnitude: int := ValueIn(10, ExponentDigits(text));
    if text != "" && text[0] == '-' then -magnitude else magnitude
  }

  predicate ValidNumeral(hex: bool, n: Numeral)
  {
    && AllDigits(hex, n.whole) && AllDigits(hex, n.fraction)
    && (n.whole != "" || n.fraction != "")
    && (!n.point ==> n.fraction == "")
    && (n.exponent.Some? ==> IsMarker(hex, n.exponent.value.marker) && IsExponent(n.exponent.value.text))
  }

  function SpellExponent(n: Numeral): string
  {
    match n.exponent
    case None => ""
    case Some(e) => [e.marker] + e.text
  }

  function SpellFraction(n: Numeral): string
  {
    (if n.point then "." else "") + n.fraction + SpellExponent(n)
  }

  function Spell(n: Numeral): string
  {
    n.whole + SpellFraction(n)
  }

  // ----- What a numeral denotes -------------------------------------------------------------------

  function Base(hex: bool): nat
  {
    if hex then 16 else 10
  }

  function WrittenExponent(n: Numeral): int
  {
    match n.exponent
    case None => 0
    case Some(e) => ExponentValue(e.text)
  }

  /** All digits read as one whole number. */
  function DigitsValue(hex: bool, n: Numeral): nat
  {
    ValueIn(Base(hex), n.whole + n.fraction)
  }

  /** The number a numeral denotes: its digits with the point moved by the exponent. */
  function NumeralValue(hex: bool, n: Numeral): real
  {
    if hex then DigitsValue(hex, n) as real * Two(WrittenExponent(n) - 4 * |n.fraction|)
    else DigitsValue(hex, n) as real * RPow(10, WrittenExponent(n) - |n.fraction|)
  }

  // ----- Spelling is unambiguous ------------------------------------------------------------------

  lemma {:induction false} DigitsNoShorter(hex: bool, s: string, t: string, u: string, v: string)
    requires s + t == u + v && AllDigits(hex, u) && (t == "" || !IsDigit(hex, t[0]))
    ensures |u| <= |s|
  {
    var whole := s + t;
    if |s| < |whole| { assert whole[|s|] == t[0]; }
    assert forall i :: 0 <= i < |u| ==> whole[i] == u[i];
  }

  /** Digits followed by something else can only be split off in one place. */
  lemma {:induction false} DigitsEnd(hex: bool, s: string, t: string, u: string, v: string)
    requires s + t == u + v && AllDigits(hex, s) && AllDigits(hex, u)
    requires t == "" || !IsDigit(hex, t[0])
    requires v == "" || !IsDigit(hex, v[0])
    ensures s == u && t == v
  {
    DigitsNoShorter(hex, s, t, u, v);
    DigitsNoShorter(hex, u, v, s, t);
    assert s == (s + t)[..|s|] && u == (u + v)[..|u|];
    assert t == (s + t)[|s|..] && v == (u + v)[|u|..];
  }

  lemma {:induction false} MarkersAreNoDigits(hex: bool)
    ensures forall c :: IsMarker(hex, c) ==> !IsDigit(hex, c) && c != '.'
    ensures !IsDigit(hex, '.')
  {
  }

  /** What follows the whole digits does not start with a digit; nor does the exponent part. */
  lemma {:induction false} TailStarts(hex: bool, n: Numeral)
    requires ValidNumeral(hex, n)
    ensures SpellExponent(n) != "" ==> IsMarker(hex, SpellExponent(n)[0]) && !IsDigit(hex, SpellExponent(n)[0])
    ensures SpellFraction(n) != "" ==> !IsDigit(hex, SpellFraction(n)[0])
    ensures SpellFraction(n) != "" ==> (SpellFraction(n)[0] == '.' <==> n.point)
    ensures n.point ==> SpellFraction(n) == "." + (n.fraction + SpellExponent(n))
    ensures !n.point ==> SpellFraction(n) == SpellExponent(n)
  {
    MarkersAreNoDigits(hex);
  }

  /** A text is the spelling of one numeral at most. */
  lemma {:induction false} SpellUnique(hex: bool, n: Numeral, m: Numeral)
    requires ValidNumeral(hex, n) && ValidNumeral(hex, m) && Spell(n) == Spell(m)
    ensures n == m
  {
    TailStarts(hex, n);
    TailStarts(hex, m);
    DigitsEnd(hex, n.whole, SpellFraction(n), m.whole, SpellFraction(m));
    if SpellFraction(n) == "" {
      assert !n.point && !m.point;
    }
    if n.point {
      assert (n.fraction + SpellExponent(n)) == SpellFraction(n)[1..];
      assert (m.fraction + SpellExponent(m)) == SpellFraction(m)[1..];
      DigitsEnd(hex, n.fraction, SpellExponent(n), m.fraction, SpellExponent(m));
    }
    ExponentUnique(n, m);
  }

  lemma {:induction false} ExponentUnique(n: Numeral, m: Numeral)
    requires SpellExponent(n) == SpellExponent(m)
    ensures n.exponent == m.exponent
  {
    if n.exponent.Some? && m.exponent.Some? {
      var s, t := SpellExponent(n), SpellExponent(m);
      assert s[1..] == n.exponent.value.text && t[1..] == m.exponent.value.text;
      assert s[0] == n.exponent.value.marker && t[0] == m.exponent.value.marker;
    }
  }

  // ----- The scanner ------------------------------------------------------------------------------

  const SATURATION := 1_000_000_000_000

  /** The scanner keeps no larger exponents than this. */
  function Saturated(e: int): int
  {
    if e > SATURATION then SATURATION else if e < -SATURATION then -SATURATION else e
  }

  method ParseExponent(text: string) returns (r: Option<int>)
    ensures r.Some? <==> IsExponent(text)
    ensures r.Some? ==> r.value == Saturated(ExponentValue(text))
  {
    hide ValueIn;
    var negative := false;
    var digits := text;
    if text != "" && (text[0] == '+' || text[0] == '-') {
      negative := text[0] == '-';
      digits := text[1..];
    }
    if digits == "" { return None; }
    var value := 0;
    assert ValueIn(10, digits[..0]) == 0 by { EmptyValue(10, digits); }
    for i := 0 to |digits|
      invariant forall k :: 0 <= k < i ==> '0' <= digits[k] <= '9'
      invariant value == Saturated(ValueIn(10, digits[..i]))
    {
      if !('0' <= digits[i] <= '9') { return None; }
      ValueStep(10, digits, i);
      var next := value * 10 + (digits[i] as int - '0' as int);
      value := if next < 1_000_000_000_000 then next else 1_000_000_000_000;
    }
    assert digits[..|digits|] == digits;
    return Some(if negative then -value else value);
  }

  lemma {:induction false} EmptyValue(base: nat, s: string)
    ensures ValueIn(base, s[..0]) == 0
  {
  }

  /** The longest prefix of digits, and the rest. */
  method TakeDigits(hex: bool, text: string) returns (digits: string, rest: string)
    ensures text == digits + rest && AllDigits(hex, digits) && (rest == "" || !IsDigit(hex, rest[0]))
  {
    var count := 0;
    while count < |text|
          && ('0' <= text[count] <= '9' || (hex && ('a' <= text[count] <= 'f' || 'A' <= text[count] <= 'F')))
      invariant count <= |text| && AllDigits(hex, text[..count])
    {
      count := count + 1;
    }
    digits, rest := text[..count], text[count..];
  }

  datatype Scanned = Scanned(whole: string, fraction: string, exponent: int)

  /** Takes the digits off the front of a text, around a point if there is one. */
  method SplitText(text: string, hex: bool) returns (whole: string, point: bool, fraction: string, rest: string)
    ensures Split(hex, text, whole, point, fraction, rest)
  {
    hide IsDigit;
    whole, rest := TakeDigits(hex, text);
    ghost var tail := rest;
    fraction, point := "", false;
    if rest != "" && rest[0] == '.' {
      point := true;
      fraction, rest := TakeDigits(hex, rest[1..]);
      assert tail == "." + (fraction + rest);
    }
    assert !point ==> "" + (fraction + rest) == rest;
  }

  /** Finds the numeral a text spells, rejecting every text that spells none. */
  method ScanNumber(text: string, hex: bool) returns (r: Option<Scanned>, ghost n: Numeral)
    ensures r.Some? <==> exists m :: ValidNumeral(hex, m) && Spell(m) == text
    ensures r.Some? ==>
      && ValidNumeral(hex, n) && Spell(n) == text
      && r.value == Scanned(n.whole, n.fraction, Saturated(WrittenExponent(n)))
  {
    hide AllDigits, IsDigit, Spell, ExponentValue, IsExponent;
    n := Numeral("", false, "", None);
    var whole, point, fraction, rest := SplitText(text, hex);
    SplitDigits(hex, text, whole, point, fraction, rest);
    hide Split;
    if whole == "" && fraction == "" {
      NoDigits(hex, text, whole, point, fraction, rest);
      return None, n;
    }
    if rest == "" {
      n := Numeral(whole, point, fraction, None);
      SpelledFrom(hex, n, text, whole, point, fraction, rest);
      return Some(Scanned(whole, fraction, 0)), n;
    }
    var isMarker := if hex then rest[0] == 'p' || rest[0] == 'P' else rest[0] == 'e' || rest[0] == 'E';
    if !isMarker {
      NoMarker(hex, text, whole, point, fraction, rest);
      return None, n;
    }
    var exponent := ParseExponent(rest[1..]);
    if exponent.None? {
      NoExponent(hex, text, whole, point, fraction, rest);
      return None, n;
    }
    n := Numeral(whole, point, fraction, Some(ExponentPart(rest[0], rest[1..])));
    SpelledFrom(hex, n, text, whole, point, fraction, rest);
    return Some(Scanned(whole, fraction, exponent.value)), n;
  }

  /** What the scanner has taken off a text: digits, perhaps a point with more digits, and a rest
      that starts with neither. */
  ghost predicate Split(hex: bool, text: string, whole: string, point: bool, fraction: string, rest: string)
  {
    && AllDigits(hex, whole) && AllDigits(hex, fraction) && (!point ==> fraction == "")
    && text == whole + ((if point then "." else "") + (fraction + rest))
    && (rest == "" || !IsDigit(hex, rest[0])) && (!point && rest != "" ==> rest[0] != '.')
  }

  lemma {:induction false} SplitDigits(hex: bool, text: string, whole: string, point: bool, fraction: string, rest: string)
    requires Split(hex, text, whole, point, fraction, rest)
    ensures AllDigits(hex, whole) && AllDigits(hex, fraction) && (!point ==> fraction == "")
  {
  }

  /** Every numeral the text spells has the taken digits and spells the rest as its exponent. */
  lemma {:induction false} SplitNumeral(hex: bool, text: string, whole: string, point: bool, fraction: string,
      rest: string, m: Numeral)
    requires Split(hex, text, whole, point, fraction, rest) && ValidNumeral(hex, m) && Spell(m) == text
    ensures m.whole == whole && m.fraction == fraction && SpellExponent(m) == rest
    ensures rest != "" ==> m.exponent == Some(ExponentPart(rest[0], rest[1..]))
  {
    var tail := (if point then "." else "") + (fraction + rest);
    TailStarts(hex, m);
    MarkersAreNoDigits(hex);
    DigitsEnd(hex, m.whole, SpellFraction(m), whole, tail);
    if point {
      assert tail[0] == '.' && tail[1..] == fraction + rest;
      assert SpellFraction(m)[1..] == m.fraction + SpellExponent(m);
      DigitsEnd(hex, m.fraction, SpellExponent(m), fraction, rest);
    } else {
      assert tail == rest;
    }
    if rest != "" { assert rest[1..] == m.exponent.value.text && rest[0] == m.exponent.value.marker; }
  }

  lemma {:induction false} NoDigits(hex: bool, text: string, whole: string, point: bool, fraction: string, rest: string)
    requires Split(hex, text, whole, point, fraction, rest) && whole == "" && fraction == ""
    ensures forall m :: ValidNumeral(hex, m) ==> Spell(m) != text
  {
    forall m | ValidNumeral(hex, m) && Spell(m) == text
      ensures false
    {
      SplitNumeral(hex, text, whole, point, fraction, rest, m);
    }
  }

  lemma {:induction false} NoMarker(hex: bool, text: string, whole: string, point: bool, fraction: string, rest: string)
    requires Split(hex, text, whole, point, fraction, rest) && rest != "" && !IsMarker(hex, rest[0])
    ensures forall m :: ValidNumeral(hex, m) ==> Spell(m) != text
  {
    forall m | ValidNumeral(hex, m) && Spell(m) == text
      ensures false
    {
      SplitNumeral(hex, text, whole, point, fraction, rest, m);
      TailStarts(hex, m);
    }
  }

  lemma {:induction false} NoExponent(hex: bool, text: string, whole: string, point: bool, fraction: string, rest: string)
    requires Split(hex, text, whole, point, fraction, rest) && rest != "" && !IsExponent(rest[1..])
    ensures forall m :: ValidNumeral(hex, m) ==> Spell(m) != text
  {
    forall m | ValidNumeral(hex, m) && Spell(m) == text
      ensures false
    {
      SplitNumeral(hex, text, whole, point, fraction, rest, m);
    }
  }

  lemma {:induction false} SpelledFrom(hex: bool, n: Numeral, text: string, whole: string, point: bool, fraction: string,
      rest: string)
    requires Split(hex, text, whole, point, fraction, rest)
    requires n.whole == whole && n.point == point && n.fraction == fraction && SpellExponent(n) == rest
    ensures Spell(n) == text
  {
    assert (if point then "." else "") + fraction + rest == (if point then "." else "") + (fraction + rest);
  }
}
