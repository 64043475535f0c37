/** Rounding to nearest, ties to even: what it means, that it is unique and monotone, and that the
    integer algorithm all arithmetic goes through computes it. */
module Rounding {
  import opened Powers
  import opened Limbs
  import opened Formats

  // ----- The specification ----------------------------------------------------------------------

  /** Magnitudes from here on round to infinity: the largest finite value plus half its last
      place (IEEE 754-2019, section 4.3.1). */
  function Threshold(f: Format): (t: real)
    ensures 0.0 < t
  {
    hide RPow, Pow, P2, Two;
    ValStrict(0, 2 * P2(Precision(f)) - 1, TopQuantum(f) - 1);
    Val(2 * P2(Precision(f)) - 1, TopQuantum(f) - 1)
  }

  /** No value of the format is closer to `x` than `m * 2^k`; if another is as close, `m` is even. */
  ghost predicate IsNearest(f: Format, x: real, m: nat, k: int)
  {
    && Canonical(f, m, k)
    && forall n: nat, j: int :: InFormat(f, n, j) ==> NoFarther(x, m, k, n, j)
  }

  predicate NoFarther(x: real, m: nat, k: int, n: nat, j: int)
  {
    && Abs(x - Val(m, k)) <= Abs(x - Val(n, j))
    && (Abs(x - Val(m, k)) == Abs(x - Val(n, j)) && Val(m, k) != Val(n, j) ==> m % 2 == 0)
  }

  /** `bits` is the pattern of the magnitude `x`, under a sign, rounded into the format. */
  ghost predicate CorrectlyRounded(f: Format, negative: bool, x: real, bits: nat)
  {
    if x >= Threshold(f) then bits == Infinity(negative)
    else
      && bits < B128 && IsFinite(bits) && Negative(bits) == negative
      && exists m: nat, k: int :: IsNearest(f, x, m, k) && Magnitude(bits) == Val(m, k)
  }

  // ----- Consequences of the specification ------------------------------------------------------

  /** Two values written with even significands have a third value strictly between them. */
  lemma {:induction false} BetweenEvens(f: Format, m: nat, k: int, m': nat, k': int)
    requires Canonical(f, m, k) && Canonical(f, m', k') && m % 2 == 0 && m' % 2 == 0
    requires Val(m, k) < Val(m', k')
    ensures InFormat(f, m + 1, k) && Val(m, k) < Val(m + 1, k) < Val(m', k')
  {
    hide RPow, Pow, P2, Two, Val;
    P2Step(Precision(f) - 1);
    ValStrict(m, m + 1, k);
    if k' < k { CanonicalOrder(f, m, k, m', k'); }
    var d: nat := k' - k;
    ValShift(m', k, d);
    ValStrict(m, m' * P2(d), k);
    assert m' * P2(d) % 2 == 0 by { EvenTimes(m', P2(d)); }
    ValStrict(m + 1, m' * P2(d), k);
  }

  lemma {:induction false} EvenTimes(m: nat, c: nat)
    requires m % 2 == 0
    ensures m * c % 2 == 0
  {
    assert m * c == 2 * (m / 2 * c);
  }

  /** A magnitude rounds to one value only. */
  lemma {:induction false} NearestUnique(f: Format, x: real, m: nat, k: int, m': nat, k': int)
    requires IsNearest(f, x, m, k) && IsNearest(f, x, m', k')
    ensures m == m' && k == k'
  {
    hide RPow, Pow, P2, Two, Val;
    assert NoFarther(x, m, k, m', k') && NoFarther(x, m', k', m, k);
    if Val(m, k) < Val(m', k') {
      BetweenEvens(f, m, k, m', k');
    } else if Val(m', k') < Val(m, k) {
      BetweenEvens(f, m', k', m, k);
    } else {
      CanonicalUnique(f, m, k, m', k');
    }
  }

  /** Correct rounding leaves no choice of the result. */
  lemma {:induction false} RoundedUnique(f: Format, negative: bool, x: real, b: nat, c: nat)
    requires CorrectlyRounded(f, negative, x, b) && CorrectlyRounded(f, negative, x, c)
    ensures b == c
  {
    hide RPow, Pow, P2, Two, Val, Magnitude;
    if x < Threshold(f) {
      var m, k :| IsNearest(f, x, m, k) && Magnitude(b) == Val(m, k);
      var n, j :| IsNearest(f, x, n, j) && Magnitude(c) == Val(n, j);
      NearestUnique(f, x, m, k, n, j);
      FiniteUnique(b, c);
    }
  }

  /** Rounding never reverses the order of two magnitudes. */
  lemma {:induction false} NearestMonotone(f: Format, x: real, y: real, m: nat, k: int, n: nat, j: int)
    requires x <= y && IsNearest(f, x, m, k) && IsNearest(f, y, n, j)
    ensures Val(m, k) <= Val(n, j)
  {
    hide RPow, Pow, P2, Two, Val;
    assert NoFarther(x, m, k, n, j) && NoFarther(y, n, j, m, k);
    if Val(n, j) < Val(m, k) {
      assert x == y;
      NearestUnique(f, x, m, k, n, j);
    }
  }

  /** A value nearest to both ends of an interval is nearest to everything inside it. */
  lemma {:induction false} NearestConvex(f: Format, low: real, x: real, high: real, m: nat, k: int)
    requires low <= x <= high && IsNearest(f, low, m, k) && IsNearest(f, high, m, k)
    ensures IsNearest(f, x, m, k)
  {
    hide RPow, Pow, P2, Two, Val;
    forall n: nat, j: int | InFormat(f, n, j)
      ensures NoFarther(x, m, k, n, j)
    {
      assert NoFarther(low, m, k, n, j) && NoFarther(high, m, k, n, j);
    }
  }

  /** If both ends of an interval round to one pattern, so does everything inside it. */
  lemma {:induction false} RoundedConvex(f: Format, negative: bool, low: real, x: real, high: real, bits: nat)
    requires low <= x <= high
    requires CorrectlyRounded(f, negative, low, bits) && CorrectlyRounded(f, negative, high, bits)
    ensures CorrectlyRounded(f, negative, x, bits)
  {
    hide RPow, Pow, P2, Two, Val, Magnitude;
    if low >= Threshold(f) {
    } else {
      assert IsFinite(bits) && !IsFinite(Infinity(negative)) by { Unpacked(negative, EXPONENT_MASK, 0); }
      var m, k :| IsNearest(f, low, m, k) && Magnitude(bits) == Val(m, k);
      var n, j :| IsNearest(f, high, n, j) && Magnitude(bits) == Val(n, j);
      CanonicalUnique(f, m, k, n, j);
      NearestConvex(f, low, x, high, m, k);
    }
  }

  /** Values of the format round to themselves. */
  lemma {:induction false} RepresentableNearest(f: Format, m: nat, k: int)
    requires Canonical(f, m, k)
    ensures IsNearest(f, Val(m, k), m, k)
  {
    hide RPow, Pow, P2, Two, Val;
    forall n: nat, j: int | InFormat(f, n, j)
      ensures NoFarther(Val(m, k), m, k, n, j)
    {
    }
  }

  lemma {:induction false} GrownVal(m: nat, k: int, t: int, u: real, v: real)
    requires u == Two(k) && v == Two(t) && u <= v
    ensures Val(m, k) <= Val(m, t)
  {
    hide Two;
    RMulMono(u, v, m as real);
  }

  lemma {:induction false} BelowThreshold(f: Format, m: nat, k: int)
    requires InFormat(f, m, k)
    ensures Val(m, k) < Threshold(f)
  {
    hide RPow, Pow, P2, Two;
    var p, t := Precision(f), TopQuantum(f);
    TwoMono(k, t);
    GrownVal(m, k, t, Two(k), Two(t));
    assert Val(m, t) == Val(m * 2, t - 1) by { ValShift(m, t - 1, 1); P2Step(0); P2Zero(); }
    ValStrict(m * 2, 2 * P2(p) - 1, t - 1);
  }

  /** An exactly representable magnitude comes back unchanged. */
  lemma {:induction false} RoundedExact(f: Format, negative: bool, m: nat, k: int, bits: nat)
    requires InFormat(f, m, k) && CorrectlyRounded(f, negative, Val(m, k), bits)
    ensures bits < B128 && IsFinite(bits) && Negative(bits) == negative && Magnitude(bits) == Val(m, k)
  {
    hide RPow, Pow, P2, Two, Val, Magnitude;
    BelowThreshold(f, m, k);
    var n, j :| IsNearest(f, Val(m, k), n, j) && Magnitude(bits) == Val(n, j);
    assert NoFarther(Val(m, k), n, j, m, k);
  }

  /** Every value of a format has a canonical form. */
  lemma {:induction false} Canonicalize(f: Format, m: nat, k: int) returns (n: nat, j: int)
    requires InFormat(f, m, k)
    ensures Canonical(f, n, j) && Val(n, j) == Val(m, k)
    decreases k - Quantum(f)
  {
    hide RPow, Pow, P2, Two;
    var p := Precision(f);
    if k == Quantum(f) || P2(p - 1) <= m {
      n, j := m, k;
    } else {
      P2Step(p - 1);
      ValShift(m, k - 1, 1);
      assert P2(1) == 2 by { P2Step(0); P2Zero(); }
      n, j := Canonicalize(f, m * 2, k - 1);
    }
  }

  /** A finite pattern whose magnitude is a value of the format is what that magnitude rounds to. */
  lemma {:induction false} ExactRounded(f: Format, m: nat, k: int, bits: nat)
    requires InFormat(f, m, k) && bits < B128 && IsFinite(bits) && Magnitude(bits) == Val(m, k)
    ensures CorrectlyRounded(f, Negative(bits), Magnitude(bits), bits)
  {
    hide RPow, Pow, P2, Two, Val, Magnitude;
    BelowThreshold(f, m, k);
    var n, j := Canonicalize(f, m, k);
    RepresentableNearest(f, n, j);
  }

  // ----- The algorithm --------------------------------------------------------------------------

  /** How many of the significand's bits fall below the format's last place: none when it is not
      positive. */
  function DroppedBits(significand: nat, exponent: int, f: Format): int
  {
    var info := Info(f);
    var length := BitLength(significand);
    var topExponent := exponent + length - 1;
    var keptBits := if topExponent < info.minExponent then info.precision - (info.minExponent - topExponent)
                    else info.precision;
    length - keptBits
  }

  /** The kept bits, rounded on the guard bit and on whether anything nonzero is below it. */
  function RoundedSignificand(significand: nat, dropped: int, sticky: bool): nat
  {
    if dropped <= 0 then significand % B128 * P2(-dropped) % B128
    else
      var guardIndex: nat := dropped - 1;
      var guard := BitAt(significand, guardIndex);
      var below := if guardIndex < BitLength(significand) then guardIndex else BitLength(significand);
      var rest := sticky || significand % P2(below) != 0;
      var rounded := significand / P2(dropped) % B128;
      if guard && (rest || rounded % 2 != 0) then rounded + 1 else rounded
  }

  /** The rounded significand and its exponent, after a carry out of the top bit. */
  function RoundedParts(significand: nat, exponent: int, sticky: bool, f: Format): (nat, int)
  {
    var dropped := DroppedBits(significand, exponent, f);
    var rounded := RoundedSignificand(significand, dropped, sticky);
    if BitLength(rounded) > Info(f).precision then (rounded / 2, exponent + dropped + 1)
    else (rounded, exponent + dropped)
  }

  /** Whatever is kept, and a carry out of it, has at most one bit too many. */
  lemma {:induction false} KeptBound(s: nat, dropped: int, kept: int, sticky: bool)
    requires 0 < s && kept <= 113 && dropped == BitLength(s) - kept
    ensures RoundedSignificand(s, dropped, sticky) <= if 0 <= kept then P2(kept) else 0
    ensures dropped <= 0 ==> RoundedSignificand(s, dropped, sticky) == s * P2(-dropped) < P2(kept)
    ensures 0 < dropped ==> s / P2(dropped) + 1 < B128
    ensures 0 < dropped && 0 <= kept ==> s / P2(dropped) < P2(kept)
    ensures kept < 0 ==> s / P2(dropped) == 0
  {
    hide Pow, P2, BitAt;
    QuadConstants();
    if 0 <= kept { P2Mono(kept, 113); }
    if dropped <= 0 {
      KeptWhole(s, kept);
      DivModUnique(s, B128, 0, s);
      DivModUnique(s * P2(-dropped), B128, 0, s * P2(-dropped));
    } else if 0 <= kept {
      KeptPart(s, kept, dropped);
      RoundedUpAtMost(s, dropped, sticky);
    } else {
      NothingKept(s, dropped);
    }
  }

  lemma {:induction false} RoundedUpAtMost(s: nat, dropped: nat, sticky: bool)
    requires 0 < dropped && s / P2(dropped) < B128
    ensures RoundedSignificand(s, dropped, sticky) <= s / P2(dropped) + 1
  {
    hide Pow, P2, BitAt;
  }

  lemma {:induction false} KeptPart(s: nat, kept: nat, dropped: nat)
    requires 0 < s && BitLength(s) == kept + dropped
    ensures s / P2(dropped) < P2(kept)
  {
    hide Pow, P2;
    BitLengthBounds(s);
    P2Add(kept, dropped);
    DivBelow(s, P2(dropped), P2(kept));
  }

  lemma {:induction false} KeptWhole(s: nat, kept: nat)
    requires 0 < s && BitLength(s) <= kept <= 113
    ensures s < B128 && s * P2(kept - BitLength(s)) < P2(kept) < B128
  {
    hide Pow, P2;
    var c := P2(kept - BitLength(s));
    BitLengthBounds(s);
    P2Add(BitLength(s), kept - BitLength(s));
    MulStrict(s, P2(BitLength(s)), c);
    MulMono(1, c, s);
    QuadConstants();
    P2Mono(kept, 113);
  }

  lemma {:induction false} NothingKept(s: nat, dropped: nat)
    requires 0 < s && BitLength(s) < dropped
    ensures s / P2(dropped) == 0 && !BitAt(s, dropped - 1)
  {
    hide Pow, P2;
    BitLengthAtMost(s, dropped - 1);
    BitLengthAtMost(s, dropped);
    DivModUnique(s, P2(dropped), 0, s);
    DivModUnique(s, P2(dropped - 1), 0, s);
  }

  lemma {:induction false} RoundedFits(significand: nat, exponent: int, sticky: bool, f: Format)
    requires 0 < significand
    ensures var (rounded, exponent') := RoundedParts(significand, exponent, sticky, f);
            BitLength(rounded) <= Precision(f) && Quantum(f) <= exponent'
  {
    hide Pow, P2, RoundedSignificand;
    var dropped, p := DroppedBits(significand, exponent, f), Precision(f);
    var kept := BitLength(significand) - dropped;
    var rounded := RoundedSignificand(significand, dropped, sticky);
    PlaceOfDropped(significand, exponent, f);
    KeptBound(significand, dropped, kept, sticky);
    assert rounded <= P2(p) by { if 0 <= kept { P2Mono(kept, p); } }
    P2Step(p - 1);
    P2Strict(p - 1, p);
    BitLengthAtMost(rounded / 2, p);
  }

  /** The algorithm as a function: both overflow tests, the rounded parts between them, and the packing. */
  function RoundExact(negative: bool, significand: nat, exponent: int, sticky: bool, f: Format): (bits: nat)
  {
    if significand == 0 then Zero(negative)
    else if exponent + BitLength(significand) - 1 > Info(f).maxExponent then Infinity(negative)
    else
      var (rounded, exponent') := RoundedParts(significand, exponent, sticky, f);
      if rounded != 0 && exponent' + BitLength(rounded) - 1 > Info(f).maxExponent then Infinity(negative)
      else
        RoundedFits(significand, exponent, sticky, f);
        ExactQuad(negative, rounded, exponent')
  }

  // ----- Rounding to a multiple of a unit -------------------------------------------------------

  /** `n` units are the nearest multiple of the unit to `x`, the even one of two. */
  predicate HalfEven(x: real, unit: real, n: int)
  {
    && 2.0 * Abs(x - n as real * unit) <= unit
    && (2.0 * Abs(x - n as real * unit) == unit ==> n % 2 == 0)
  }

  /** The last place of the value nearest to a magnitude whose leading bit is at `top`. */
  function Place(f: Format, top: int): int
  {
    if top - Precision(f) + 1 > Quantum(f) then top - Precision(f) + 1 else Quantum(f)
  }

  lemma {:induction false} PlaceOfDropped(significand: nat, exponent: int, f: Format)
    requires 0 < significand
    ensures exponent + DroppedBits(significand, exponent, f) == Place(f, exponent + BitLength(significand) - 1)
  {
  }

  /** Guard and sticky bits decide which multiple of `2^d` is nearest. */
  lemma {:induction false} GuardDecides(s: nat, d: nat, tail: real, sticky: bool)
    requires 0 < d && s / P2(d) + 1 < B128
    requires if sticky then 0.0 < tail < 1.0 else tail == 0.0
    ensures HalfEven(s as real + tail, P2(d) as real, RoundedSignificand(s, d, sticky))
  {
    hide Pow, P2, HalfEven;
    var u, h := P2(d), P2(d - 1);
    assert u == 2 * h by { P2Step(d - 1); }
    hide RoundedSignificand, P2, Pow;
    var q, r := QuotientAndRest(s, u);
    GuardedRounding(s, d, h, q, r, sticky);
    RoundUpHalfEven(s, u, q, r, h, tail, sticky, RoundedSignificand(s, d, sticky));
  }

  lemma {:induction false} QuotientAndRest(s: nat, u: nat) returns (q: nat, r: nat)
    requires 0 < u
    ensures s == q * u + r && r < u && q == s / u
  {
    q, r := s / u, s % u;
  }

  lemma {:induction false} GuardedRounding(s: nat, d: nat, h: nat, q: nat, r: nat, sticky: bool)
    requires 0 < d && h == P2(d - 1) && s == q * P2(d) + r && r < P2(d) == 2 * h && q + 1 < B128
    ensures RoundedSignificand(s, d, sticky) == if h <= r && (sticky || r > h || q % 2 != 0) then q + 1 else q
  {
    hide Pow, P2, BitAt;
    DivModUnique(s, P2(d), q, r);
    LowBitsOnly(s, d - 1);
    assert q * P2(d) == q * (2 * h);
    GuardBit(s, h, q, r, d - 1);
    DivModUnique(q, B128, 0, q);
  }

  lemma {:induction false} RoundUpHalfEven(s: nat, u: nat, q: nat, r: nat, h: nat, tail: real, sticky: bool, n: nat)
    requires s == q * u + r && u == 2 * h && r < u
    requires if sticky then 0.0 < tail < 1.0 else tail == 0.0
    requires n == if h <= r && (sticky || r > h || q % 2 != 0) then q + 1 else q
    ensures HalfEven(s as real + tail, u as real, n)
  {
    var x, unit, v := s as real + tail, u as real, n as real * u as real;
    RealMul(n, u);
    assert x - v == (s - n * u) as real + tail;
    assert (q + 1) * u == q * u + u;
    assert s - n * u == if n == q then r else r - u;
    HalfEvenFrom(x, unit, n, v, (s - n * u) as real + tail);
  }

  lemma {:induction false} HalfEvenFrom(x: real, unit: real, n: int, v: real, d: real)
    requires v == n as real * unit && x - v == d
    requires 2.0 * Abs(d) <= unit && (2.0 * Abs(d) == unit ==> n % 2 == 0)
    ensures HalfEven(x, unit, n)
  {
  }

  lemma {:induction false} LowBitsOnly(s: nat, k: nat)
    ensures s % P2(if k < BitLength(s) then k else BitLength(s)) == s % P2(k)
  {
    hide Pow, P2;
    if BitLength(s) <= k {
      BitLengthAtMost(s, BitLength(s));
      BitLengthAtMost(s, k);
      DivModUnique(s, P2(BitLength(s)), 0, s);
      DivModUnique(s, P2(k), 0, s);
    }
  }

  lemma {:induction false} GuardBit(s: nat, h: nat, q: nat, r: nat, k: nat)
    requires 0 < h == P2(k) && s == q * (2 * h) + r && r < 2 * h
    ensures BitAt(s, k) == (h <= r)
    ensures s % h == if h <= r then r - h else r
  {
    hide Pow, P2;
    assert q * (2 * h) == 2 * q * h by { MulAssoc(q, 2, h); }
    if h <= r {
      assert (2 * q + 1) * h == 2 * q * h + h;
      DivModUnique(s, h, 2 * q + 1, r - h);
    } else {
      DivModUnique(s, h, 2 * q, r);
    }
  }

  lemma {:induction false} HalfEvenScale(y: real, unit: real, n: int, c: real, x: real, v: real)
    requires 0.0 < c && x == y * c && v == unit * c
    ensures HalfEven(y, unit, n) <==> HalfEven(x, v, n)
  {
    hide HalfEven;
    var a := HalfEvenIs(y, unit, n);
    var b := HalfEvenIs(x, v, n);
    MultipleScaled(n as real, unit, c, v);
    DistanceScaled(y, a, unit, c, x, b, v);
  }

  /** Half-even rounding in terms of a name for the multiple. */
  lemma {:induction false} HalfEvenIs(x: real, unit: real, n: int) returns (a: real)
    ensures a == Times(n as real, unit)
    ensures HalfEven(x, unit, n) <==> 2.0 * Abs(x - a) <= unit && (2.0 * Abs(x - a) == unit ==> n % 2 == 0)
  {
    a := n as real * unit;
  }

  lemma {:induction false} MultipleScaled(n: real, unit: real, c: real, v: real)
    requires v == unit * c
    ensures Times(n, v) == Times(Times(n, unit), c)
  {
    RMulAssoc(n, unit, c);
  }

  lemma {:induction false} DistanceScaled(y: real, a: real, unit: real, c: real, x: real, b: real, v: real)
    requires 0.0 < c && x == y * c && v == unit * c && b == Times(a, c)
    ensures 2.0 * Abs(y - a) <= unit <==> 2.0 * Abs(x - b) <= v
    ensures 2.0 * Abs(y - a) == unit <==> 2.0 * Abs(x - b) == v
  {
    RDistribute(y, a, c);
    AbsScale(y - a, c);
    DoubleScaled(Abs(y - a), unit, c, Abs(x - b), v);
  }

  lemma {:induction false} DoubleScaled(d: real, unit: real, c: real, e: real, v: real)
    requires 0.0 < c && e == d * c && v == unit * c
    ensures 2.0 * d <= unit <==> 2.0 * e <= v
    ensures 2.0 * d == unit <==> 2.0 * e == v
  {
    RDistribute(d, d, c);
    ScaledOrder(e + e, v, d + d, unit, c);
    ScaledOrder(v, e + e, unit, d + d, c);
  }

  // Everything below measures magnitudes in units of the last place.

  lemma {:induction false} InUnits(x: real, u: real, n: int) returns (y: real)
    requires 0.0 < u && HalfEven(x, u, n)
    ensures x == y * u && HalfEven(y, 1.0, n)
  {
    y := x / u;
    HalfEvenScale(y, 1.0, n, u, x, u);
  }

  /** A multiple of the unit chosen half-even is as near as any other multiple. */
  lemma {:induction false} HalfEvenNearest(x: real, y: real, u: real, n: int, j: int, v: real, w: real)
    requires 0.0 < u && HalfEven(y, 1.0, n)
    requires x == y * u && v == n as real * u && w == j as real * u
    ensures Abs(x - v) <= Abs(x - w)
    ensures Abs(x - v) == Abs(x - w) && n != j ==> n % 2 == 0
  {
    var d, e := y - n as real, y - j as real;
    hide HalfEven, Abs;
    UnitDistance(x, y, u, n as real, v, d);
    UnitDistance(x, y, u, j as real, w, e);
    var a, b := Abs(d), Abs(e);
    RMulCancel(a, b, u);
    UnitNearest(y, n, j);
  }

  lemma {:induction false} UnitNearest(y: real, n: int, j: int)
    requires HalfEven(y, 1.0, n)
    ensures Abs(y - n as real) <= Abs(y - j as real)
    ensures Abs(y - n as real) == Abs(y - j as real) && n != j ==> n % 2 == 0
  {
  }

  lemma {:induction false} UnitDistance(x: real, y: real, u: real, n: real, v: real, d: real)
    requires 0.0 < u && x == y * u && v == n * u && d == y - n
    ensures Abs(x - v) == Abs(d) * u
  {
    RDistribute(y, n, u);
    AbsScale(d, u);
  }

  /** Where a magnitude lies, in units of its last place. */
  lemma {:induction false} PlaceBounds(f: Format, x: real, top: int, y: real, u: real, n: int)
    requires Two(top) <= x < Two(top + 1) && u == Two(Place(f, top))
    requires x == y * u && HalfEven(y, 1.0, n)
    ensures 0.0 < y < P2(Precision(f)) as real && 0 <= n <= P2(Precision(f))
    ensures Quantum(f) < Place(f, top) ==>
              P2(Precision(f) - 1) as real <= y && P2(Precision(f) - 1) <= n
  {
    hide RPow, Pow, P2, Two, Val;
    var g, p := Place(f, top), Precision(f);
    ScaledOrder(0.0, x, 0.0, y, u);
    assert y < P2(p) as real by {
      TwoMono(top + 1, g + p);
      ValPower(p, g);
      ValUnits(P2(p), g, u);
      ScaledOrder(x, Val(P2(p), g), y, P2(p) as real, u);
    }
    if Quantum(f) < g {
      ValPower(p - 1, g);
      ValUnits(P2(p - 1), g, u);
      ScaledOrder(Val(P2(p - 1), g), x, P2(p - 1) as real, y, u);
    }
  }

  lemma {:induction false} ThresholdInUnits(f: Format, u: real, c: real)
    requires u == Two(TopQuantum(f)) && c == P2(Precision(f)) as real - 0.5
    ensures Threshold(f) == c * u
  {
    hide RPow, Pow, P2, Two, Val;
    var m, half := 2 * P2(Precision(f)) - 1, Two(TopQuantum(f) - 1);
    TwoStep(TopQuantum(f) - 1);
    ValUnits(m, TopQuantum(f) - 1, half);
    HalfUnits(m as real, c, half, u);
  }

  lemma {:induction false} HalfUnits(m: real, c: real, half: real, u: real)
    requires m == 2.0 * c && u == 2.0 * half
    ensures m * half == c * u
  {
    RMulAssoc(c, 2.0, half);
  }

  lemma {:induction false} TopUnits(y: real, limit: nat, n: int)
    requires HalfEven(y, 1.0, n) && y < limit as real && limit % 2 == 0
    ensures y >= limit as real - 0.5 <==> n == limit
  {
    if y >= limit as real - 0.5 {
      assert n >= limit - 1;
      assert n <= limit;
    }
  }

  lemma {:induction false} PlaceThreshold(f: Format, x: real, top: int, y: real, u: real, n: int, c: real)
    requires Two(top) <= x < Two(top + 1) && top <= Info(f).maxExponent && u == Two(Place(f, top))
    requires x == y * u && HalfEven(y, 1.0, n)
    requires y < P2(Precision(f)) as real && c == P2(Precision(f)) as real - 0.5
    ensures x >= Threshold(f) <==> n == P2(Precision(f)) && Place(f, top) == TopQuantum(f)
  {
    hide RPow, Pow, P2, Two, Threshold, Val;
    var g, p, t := Place(f, top), Precision(f), TopQuantum(f);
    P2Step(p - 1);
    if g < t {
      var v := Two(t);
      ThresholdInUnits(f, v, c);
      TwoMono(top + 1, t + (p - 1));
      ValPower(p - 1, t);
      ValUnits(P2(p - 1), t, v);
      ScaledOrder(Two(t + (p - 1)), Threshold(f), P2(p - 1) as real, c, v);
    } else {
      assert g == t;
      ThresholdInUnits(f, u, c);
      ScaledOrder(Threshold(f), x, c, y, u);
      TopUnits(y, P2(p), n);
    }
  }

  lemma {:induction false} PlaceIsNearest(f: Format, x: real, top: int, y: real, u: real, n: nat, m: nat, k: int)
    requires Two(top) <= x < Two(top + 1) && u == Two(Place(f, top))
    requires x == y * u && HalfEven(y, 1.0, n)
    requires Canonical(f, m, k) && Val(m, k) == Val(n, Place(f, top)) && (n % 2 == 0 ==> m % 2 == 0)
    ensures IsNearest(f, x, m, k)
  {
    hide RPow, Pow, P2, Two, Val, HalfEven;
    var g, p := Place(f, top), Precision(f);
    ValUnits(n, g, u);
    forall n': nat, j: int | InFormat(f, n', j)
      ensures NoFarther(x, m, k, n', j)
    {
      if g <= j {
        var i := n' * P2(j - g);
        ValShift(n', g, j - g);
        ValUnits(i, g, u);
        HalfEvenNearest(x, y, u, n, i, Val(n, g), Val(n', j));
      } else {
        // Finer values are all below the leading bit, which is a multiple of the unit.
        ValPower(p - 1, g);
        ValUnits(P2(p - 1), g, u);
        HalfEvenNearest(x, y, u, n, P2(p - 1), Val(n, g), Two(top));
        ValStrict(n', P2(p), j);
        ValPower(p, j);
        TwoMono(j + p, top);
      }
    }
  }

  /** Rounding to the last place of the leading bit's binade gives a nearest value of the format,
      and overflows exactly from the threshold up. */
  lemma {:induction false} PlaceNearest(f: Format, x: real, top: int, n: int)
    requires Two(top) <= x < Two(top + 1) && top <= Info(f).maxExponent
    requires HalfEven(x, Two(Place(f, top)), n)
    ensures 0 <= n <= P2(Precision(f))
    ensures x >= Threshold(f) <==> n == P2(Precision(f)) && Place(f, top) == TopQuantum(f)
    ensures n < P2(Precision(f)) ==> IsNearest(f, x, n, Place(f, top))
    ensures n == P2(Precision(f)) && Place(f, top) < TopQuantum(f) ==>
              IsNearest(f, x, P2(Precision(f) - 1), Place(f, top) + 1)
  {
    hide RPow, Pow, P2, Two, Val, HalfEven, IsNearest, Threshold;
    var g, p := Place(f, top), Precision(f);
    var u := Two(g);
    var y := InUnits(x, u, n);
    PlaceBounds(f, x, top, y, u, n);
    PlaceThreshold(f, x, top, y, u, n, P2(p) as real - 0.5);
    if n < P2(p) {
      PlaceIsNearest(f, x, top, y, u, n, n, g);
    } else if g < TopQuantum(f) {
      ValPower(p, g);
      ValPower(p - 1, g + 1);
      P2Strict(p - 1, p);
      P2Step(p - 2);
      PlaceIsNearest(f, x, top, y, u, n, P2(p - 1), g + 1);
    }
  }

  // ----- The algorithm meets the specification ---------------------------------------------------

  /** A nonzero tail is only allowed below at least one dropped bit, or when the result overflows. */
  predicate TailAllowed(significand: nat, exponent: int, f: Format)
  {
    && significand != 0
    && (0 < DroppedBits(significand, exponent, f)
        || exponent + BitLength(significand) - 1 > Info(f).maxExponent)
  }

  predicate IsTail(sticky: bool, tail: real)
  {
    if sticky then 0.0 < tail < 1.0 else tail == 0.0
  }

  /** `(significand + tail) * 2^exponent`. */
  function Exact(significand: nat, tail: real, exponent: int): real
  {
    (significand as real + tail) * Two(exponent)
  }

  lemma {:induction false} ExactWithoutTail(s: nat, e: int)
    ensures Exact(s, 0.0, e) == Val(s, e)
  {
    assert s as real + 0.0 == s as real;
  }

  lemma {:induction false} ExactUnits(s: nat, tail: real, e: int, y: real, u: real)
    requires y == s as real + tail && u == Two(e)
    ensures Exact(s, tail, e) == y * u
  {
  }

  lemma {:induction false} ExactBinade(s: nat, tail: real, e: int, y: real)
    requires 0 < s && 0.0 <= tail < 1.0 && y == s as real + tail
    ensures Two(e + BitLength(s) - 1) <= Exact(s, tail, e) < Two(e + BitLength(s))
  {
    hide RPow, Pow, P2, Two, Val, Exact;
    var l, u := BitLength(s), Two(e);
    BitLengthBounds(s);
    ExactUnits(s, tail, e, y, u);
    BinadeOrder(e, l - 1, u, Exact(s, tail, e), y);
    BinadeOrder(e, l, u, Exact(s, tail, e), y);
  }

  lemma {:induction false} BinadeOrder(e: int, l: nat, u: real, x: real, y: real)
    requires u == Two(e) && x == y * u
    ensures Two(e + l) <= x <==> P2(l) as real <= y
  {
    hide RPow, Pow, P2, Two, Val;
    ValPower(l, e);
    ValUnits(P2(l), e, u);
    ScaledOrder(Two(e + l), x, P2(l) as real, y, u);
  }

  lemma {:induction false} DroppedHalfEven(s: nat, e: int, sticky: bool, d: nat, tail: real, y: real)
    requires 0 < d && IsTail(sticky, tail) && y == s as real + tail && s / P2(d) + 1 < B128
    ensures HalfEven(Exact(s, tail, e), Two(e + d), RoundedSignificand(s, d, sticky))
  {
    hide RPow, Pow, P2, Two, Val, HalfEven, RoundedSignificand, Exact;
    var u := Two(e);
    GuardDecides(s, d, tail, sticky);
    ExactUnits(s, tail, e, y, u);
    ValPower(d, e);
    ValUnits(P2(d), e, u);
    HalfEvenScale(y, P2(d) as real, RoundedSignificand(s, d, sticky), u, Exact(s, tail, e), Two(e + d));
  }

  lemma {:induction false} WidenedHalfEven(s: nat, e: int, d: nat)
    ensures HalfEven(Exact(s, 0.0, e), Two(e - d), s * P2(d))
  {
    hide RPow, Pow, P2, Two, Val, HalfEven, Exact;
    ExactWithoutTail(s, e);
    ValShift(s, e - d, d);
    ValUnits(s * P2(d), e - d, Two(e - d));
    HalfEvenFrom(Exact(s, 0.0, e), Two(e - d), s * P2(d), Val(s * P2(d), e - d), 0.0);
  }

  lemma {:induction false} SignificandHalfEven(s: nat, e: int, sticky: bool, f: Format, tail: real)
    requires 0 < s && IsTail(sticky, tail)
    requires sticky ==> 0 < DroppedBits(s, e, f)
    ensures HalfEven(Exact(s, tail, e), Two(Place(f, e + BitLength(s) - 1)),
                     RoundedSignificand(s, DroppedBits(s, e, f), sticky))
  {
    hide RPow, Pow, P2, Two, Val, HalfEven, RoundedSignificand, Exact;
    var d := DroppedBits(s, e, f);
    PlaceOfDropped(s, e, f);
    KeptBound(s, d, BitLength(s) - d, sticky);
    if 0 < d {
      DroppedHalfEven(s, e, sticky, d, tail, s as real + tail);
    } else {
      WidenedHalfEven(s, e, -d);
    }
  }

  lemma {:induction false} RoundedPartsOf(s: nat, e: int, sticky: bool, f: Format)
    requires 0 < s && RoundedSignificand(s, DroppedBits(s, e, f), sticky) <= P2(Precision(f))
    ensures RoundedParts(s, e, sticky, f)
         == var n, g := RoundedSignificand(s, DroppedBits(s, e, f), sticky), Place(f, e + BitLength(s) - 1);
            if n == P2(Precision(f)) then (P2(Precision(f) - 1), g + 1) else (n, g)
  {
    hide Pow, P2, RoundedSignificand;
    var p, n := Precision(f), RoundedSignificand(s, DroppedBits(s, e, f), sticky);
    PlaceOfDropped(s, e, f);
    BitLengthAtMost(n, p);
    P2Step(p - 1);
  }

  lemma {:induction false} NotPastTop(f: Format, m: nat, k: int)
    requires m < P2(Precision(f)) && k <= TopQuantum(f)
    ensures k + BitLength(m) - 1 <= Info(f).maxExponent
  {
    hide Pow, P2;
    BitLengthAtMost(m, Precision(f));
  }

  /** Correct rounding: for every significand, exponent and tail, in every format. */
  lemma {:induction false} RoundExactCorrect(negative: bool, s: nat, e: int, sticky: bool, f: Format, tail: real)
    requires IsTail(sticky, tail) && (sticky ==> TailAllowed(s, e, f))
    ensures CorrectlyRounded(f, negative, Exact(s, tail, e), RoundExact(negative, s, e, sticky, f))
  {
    hide RPow, Pow, P2, Two, Val, HalfEven, RoundedSignificand, IsNearest, Threshold, ExactQuad, Magnitude, IsFinite,
         Negative, DroppedBits, RoundExact, BitLength;
    var x, top := Exact(s, tail, e), e + BitLength(s) - 1;
    if s == 0 {
      RoundExactEnds(negative, s, e, sticky, f);
      ZeroRounds(f, negative, e);
    } else if top > Info(f).maxExponent {
      RoundExactEnds(negative, s, e, sticky, f);
      ExactBinade(s, tail, e, s as real + tail);
      FarOverflow(f, x, top);
    } else {
      var n, g, p := RoundedSignificand(s, DroppedBits(s, e, f), sticky), Place(f, top), Precision(f);
      ExactBinade(s, tail, e, s as real + tail);
      SignificandHalfEven(s, e, sticky, f, tail);
      PlaceNearest(f, x, top, n);
      RoundExactIs(negative, s, e, sticky, f, n, g);
      if n < P2(p) {
        ExactQuadValue(negative, n, g);
      } else if g < TopQuantum(f) {
        ExactQuadValue(negative, P2(p - 1), g + 1);
      }
    }
  }

  lemma {:induction false} RoundExactEnds(negative: bool, s: nat, e: int, sticky: bool, f: Format)
    ensures s == 0 ==> RoundExact(negative, s, e, sticky, f) == Zero(negative)
    ensures 0 < s && e + BitLength(s) - 1 > Info(f).maxExponent ==>
              RoundExact(negative, s, e, sticky, f) == Infinity(negative)
  {
    hide BitLength, RoundedParts, ExactQuad;
  }

  /** What the algorithm returns below its first overflow test, in terms of the rounded significand. */
  lemma {:induction false} RoundExactIs(negative: bool, s: nat, e: int, sticky: bool, f: Format, n: nat, g: int)
    requires 0 < s && e + BitLength(s) - 1 <= Info(f).maxExponent
    requires n == RoundedSignificand(s, DroppedBits(s, e, f), sticky) && g == Place(f, e + BitLength(s) - 1)
    requires n <= P2(Precision(f))
    ensures n < P2(Precision(f)) ==> FitsQuad(n, g) && RoundExact(negative, s, e, sticky, f) == ExactQuad(negative, n, g)
    ensures n == P2(Precision(f)) && g < TopQuantum(f) ==>
              FitsQuad(P2(Precision(f) - 1), g + 1)
              && RoundExact(negative, s, e, sticky, f) == ExactQuad(negative, P2(Precision(f) - 1), g + 1)
    ensures n == P2(Precision(f)) && g >= TopQuantum(f) ==> RoundExact(negative, s, e, sticky, f) == Infinity(negative)
  {
    hide RPow, Pow, P2, RoundedSignificand, ExactQuad, DroppedBits, BitLength, RoundedParts;
    var p := Precision(f);
    RoundedPartsOf(s, e, sticky, f);
    RoundedFits(s, e, sticky, f);
    if n < P2(p) {
      NotPastTop(f, n, g);
    } else {
      P2Strict(p - 1, p);
      TopBitLength(p);
    }
  }

  lemma {:induction false} TopBitLength(p: nat)
    requires 0 < p
    ensures BitLength(P2(p - 1)) == p && 0 < P2(p - 1)
  {
    hide Pow, P2;
    P2Strict(p - 1, p);
    BitLengthUnique(P2(p - 1), p - 1);
  }

  lemma {:induction false} ZeroRounds(f: Format, negative: bool, e: int)
    ensures CorrectlyRounded(f, negative, Exact(0, 0.0, e), Zero(negative))
  {
    hide RPow, Pow, P2, Two, Val;
    ExactWithoutTail(0, e);
    ZeroValue(e);
    ZeroValue(Quantum(f));
    ZeroValue(SUBNORMAL_EXPONENT);
    PackedValue(negative, 0, 0);
    RepresentableNearest(f, 0, Quantum(f));
  }

  lemma {:induction false} FarOverflow(f: Format, x: real, top: int)
    requires Two(top) <= x && Info(f).maxExponent < top
    ensures x >= Threshold(f)
  {
    hide RPow, Pow, P2, Two, Val, Threshold;
    var p, t := Precision(f), TopQuantum(f);
    var v, c := Two(t), P2(p) as real - 0.5;
    ThresholdInUnits(f, v, c);
    TwoMono(p + t, top);
    ValPower(p, t);
    ValUnits(P2(p), t, v);
    ScaledOrder(Threshold(f), Two(t + p), c, P2(p) as real, v);
  }

  // ----- A tail with nothing dropped above it ----------------------------------------------------

  /** Without a dropped bit the result is the significand itself, whatever the tail. */
  lemma {:induction false} TailIgnored(negative: bool, s: nat, e: int, f: Format)
    requires 0 < s && !TailAllowed(s, e, f)
    ensures RoundExact(negative, s, e, true, f) == RoundExact(negative, s, e, false, f)
  {
  }

  /** The next multiple of the place of `n` is a value of the format or lies past the threshold. */
  lemma {:induction false} NextValue(f: Format, n: nat, g: int) returns (m: nat, k: int)
    requires n < P2(Precision(f)) && Quantum(f) <= g <= TopQuantum(f)
    ensures Val(m, k) == Val(n + 1, g)
    ensures InFormat(f, m, k) || (n + 1 == P2(Precision(f)) && g == TopQuantum(f))
  {
    hide RPow, Pow, P2, Two, Val;
    var p := Precision(f);
    m, k := n + 1, g;
    if n + 1 == P2(p) && g < TopQuantum(f) {
      ValPower(p, g);
      ValPower(p - 1, g + 1);
      P2Strict(p - 1, p);
      m, k := P2(p - 1), g + 1;
    }
  }

  lemma {:induction false} TailDistance(v: real, w: real, x: real, u: real, g: real)
    requires 0.0 < g <= u && w == v + g && x == v + 0.75 * u
    ensures Abs(x - w) < Abs(x - v) && x >= v + 0.75 * g
  {
  }

  lemma {:induction false} ExactSum(s: nat, tail: real, e: int, u: real)
    requires u == Two(e)
    ensures Exact(s, tail, e) == Val(s, e) + tail * u
  {
    hide RPow, Two;
    RDistribute(s as real, -tail, u);
  }

  lemma {:induction false} ValNext(n: nat, g: int)
    ensures Val(n + 1, g) == Val(n, g) + Two(g)
  {
    hide RPow, Two;
    RDistribute(n as real, -1.0, Two(g));
  }

  lemma {:induction false} TopValueThreshold(f: Format, v: real, u: real, c: real)
    requires u == Two(TopQuantum(f)) && v == Val(P2(Precision(f)) - 1, TopQuantum(f))
    requires c == P2(Precision(f)) as real - 0.5
    ensures v + 0.75 * u >= Threshold(f)
  {
    hide RPow, Pow, P2, Two, Val, Threshold;
    ThresholdInUnits(f, u, c);
    ValUnits(P2(Precision(f)) - 1, TopQuantum(f), u);
    RDistribute(c, 0.5, u);
    assert (P2(Precision(f)) - 1) as real == c - 0.5;
  }

  /** Tails are rounded correctly exactly when something is dropped above them, or the result
      overflows: otherwise a tail of three quarters already goes wrong. */
  lemma {:induction false} TailNeedsGuard(negative: bool, s: nat, e: int, f: Format)
    requires 0 < s
    ensures TailAllowed(s, e, f) <==>
      forall tail: real :: 0.0 < tail < 1.0 ==>
        CorrectlyRounded(f, negative, Exact(s, tail, e), RoundExact(negative, s, e, true, f))
  {
    hide *;
    if TailAllowed(s, e, f) {
      forall tail: real | 0.0 < tail < 1.0
        ensures CorrectlyRounded(f, negative, Exact(s, tail, e), RoundExact(negative, s, e, true, f))
      {
        RoundExactCorrect(negative, s, e, true, f, tail) by { StickyTail(tail); }
      }
    } else {
      TailMisrounded(negative, s, e, f);
      var tail := 0.75;
      assert !CorrectlyRounded(f, negative, Exact(s, tail, e), RoundExact(negative, s, e, true, f));
    }
  }

  lemma {:induction false} StickyTail(tail: real)
    requires 0.0 < tail < 1.0
    ensures IsTail(true, tail)
  {
  }

  lemma {:induction false} TailMisrounded(negative: bool, s: nat, e: int, f: Format)
    requires 0 < s && !TailAllowed(s, e, f)
    ensures !CorrectlyRounded(f, negative, Exact(s, 0.75, e), RoundExact(negative, s, e, true, f))
  {
    hide RPow, Pow, P2, Two, Val, RoundExact, Exact, Magnitude, IsFinite, Negative, Threshold, Infinity, IsNearest;
    var g, x := Place(f, e + BitLength(s) - 1), Exact(s, 0.75, e);
    var n := KeptExactly(negative, s, e, f, g);
    var bits := RoundExact(negative, s, e, true, f);
    var m, k := NextValue(f, n, g);
    ValNext(n, g);
    TwoMono(g, e);
    ExactSum(s, 0.75, e, Two(e));
    TailDistance(Val(n, g), Val(m, k), x, Two(e), Two(g));
    assert !IsFinite(Infinity(negative)) by { InfinityNotFinite(negative); }
    if InFormat(f, m, k) {
      if CorrectlyRounded(f, negative, x, bits) {
        NearerExists(f, negative, x, bits, m, k);
      }
    } else {
      TopValueThreshold(f, Val(n, g), Two(g), P2(Precision(f)) as real - 0.5);
    }
  }

  /** A value of the format no farther than the result of a correct rounding. */
  lemma {:induction false} NearerExists(f: Format, negative: bool, x: real, bits: nat, m: nat, k: int)
    requires CorrectlyRounded(f, negative, x, bits) && IsFinite(bits) && InFormat(f, m, k)
    ensures Abs(x - Magnitude(bits)) <= Abs(x - Val(m, k))
  {
    hide RPow, Pow, P2, Two, Val, Magnitude, IsFinite, Negative, Threshold, Infinity;
    InfinityNotFinite(negative);
    var m', k' :| IsNearest(f, x, m', k') && Magnitude(bits) == Val(m', k');
    assert NoFarther(x, m', k', m, k);
  }

  /** With nothing dropped and a tail ignored, the result is the significand itself. */
  lemma {:induction false} KeptExactly(negative: bool, s: nat, e: int, f: Format, g: int) returns (n: nat)
    requires 0 < s && !TailAllowed(s, e, f) && g == Place(f, e + BitLength(s) - 1)
    ensures n < P2(Precision(f)) && g <= e && Quantum(f) <= g <= TopQuantum(f) && Val(n, g) == Val(s, e)
    ensures IsFinite(RoundExact(negative, s, e, true, f)) && Magnitude(RoundExact(negative, s, e, true, f)) == Val(n, g)
  {
    hide RPow, Pow, P2, Two, Val, RoundExact, Exact, Magnitude, IsFinite, Negative, Threshold, RoundedSignificand, CorrectlyRounded;
    var d, p := DroppedBits(s, e, f), Precision(f);
    n := s * P2(-d);
    PlaceOfDropped(s, e, f);
    KeptBound(s, d, BitLength(s) - d, false);
    P2Mono(BitLength(s) - d, p);
    TailIgnored(negative, s, e, f);
    RoundExactCorrect(negative, s, e, false, f, 0.0);
    ExactWithoutTail(s, e);
    ValShift(s, g, -d);
    RoundedExact(f, negative, n, g, RoundExact(negative, s, e, true, f));
  }

  lemma {:induction false} InfinityNotFinite(negative: bool)
    ensures !IsFinite(Infinity(negative)) && IsInfinite(Infinity(negative)) && !IsNan(Infinity(negative))
    ensures Negative(Infinity(negative)) == negative && Infinity(negative) < B128
  {
    Unpacked(negative, EXPONENT_MASK, 0);
  }
}
