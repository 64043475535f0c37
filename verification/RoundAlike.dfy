/** When two magnitudes round alike: every magnitude has a rounding, and two of which one is at least
    twice the other share it only at the ends of a format's range. */
module RoundAlike {
  import opened Powers
  import opened Formats
  import opened Rounding
  import opened FloatOps

  // ----- Near zero --------------------------------------------------------------------------------

  /** Up to half the smallest positive value, everything rounds to zero. */
  lemma {:induction false} TinyRounds(x: real, f: Format, negative: bool)
    requires 0.0 <= x <= Two(Quantum(f) - 1)
    ensures CorrectlyRounded(f, negative, x, Zero(negative))
  {
    hide RPow, Pow, P2, Two, Val, Threshold;
    var q := Quantum(f);
    ZeroValue(q);
    ZeroPattern(negative);
    ZeroInFormat(f);
    TinyNearest(x, f);
    TwoStep(q - 1);
    TwoMono(q, TopQuantum(f) - 1);
    ThresholdAtLeast(f);
  }

  lemma {:induction false} ThresholdAtLeast(f: Format)
    ensures Two(TopQuantum(f) - 1) <= Threshold(f)
  {
    hide RPow, Pow, P2, Two, Val;
    ValPower(0, TopQuantum(f) - 1);
    P2Zero();
    ValStrict(1, 2 * P2(Precision(f)) - 1, TopQuantum(f) - 1);
  }

  lemma {:induction false} TinyNearest(x: real, f: Format)
    requires 0.0 <= x <= Two(Quantum(f) - 1)
    ensures IsNearest(f, x, 0, Quantum(f))
  {
    hide RPow, Pow, P2, Two, Val;
    var q := Quantum(f);
    ZeroValue(q);
    ZeroInFormat(f);
    TwoStep(q - 1);
    forall n: nat, j: int | InFormat(f, n, j)
      ensures NoFarther(x, 0, q, n, j)
    {
      if n == 0 {
        ZeroValue(j);
      } else {
        P2Zero();
        ValPower(0, j);
        ValStrict(1, n, j);
        TwoMono(q, j);
      }
    }
  }

  // ----- Every magnitude has a rounding -----------------------------------------------------------

  /** With `RoundedUnique`, correct rounding is a function of the magnitude. */
  lemma {:induction false} RoundedExists(f: Format, negative: bool, x: real) returns (bits: nat)
    requires 0.0 <= x
    ensures CorrectlyRounded(f, negative, x, bits)
  {
    hide RPow, Pow, P2, Two, CorrectlyRounded, RoundExact, DroppedBits, BitLength, Threshold, Exact;
    var e := Quantum(f) - 2;
    var s, tail := SplitUnits(x, e);
    if s == 0 {
      TwoMono(e, Quantum(f) - 1);
      TinyRounds(x, f, negative);
      bits := Zero(negative);
    } else {
      PlaceOfDropped(s, e, f);
      RoundExactCorrect(negative, s, e, tail != 0.0, f, tail);
      bits := RoundExact(negative, s, e, tail != 0.0, f);
    }
  }

  lemma {:induction false} SplitUnits(x: real, e: int) returns (s: nat, tail: real)
    requires 0.0 <= x
    ensures 0.0 <= tail < 1.0 && Exact(s, tail, e) == x && (s == 0 ==> x <= Two(e))
  {
    hide Two, Exact;
    var q := UnitsIn(x, Two(e));
    s, tail := q.Floor, q - q.Floor as real;
    ExactUnits(s, tail, e, q, Two(e));
    if s == 0 { RMulMono(q, 1.0, Two(e)); }
  }

  lemma {:induction false} UnitsIn(x: real, u: real) returns (q: real)
    requires 0.0 <= x && 0.0 < u
    ensures q * u == x && 0.0 <= q
  {
    q := x / u;
    assert q * u == x;
    ScaledOrder(0.0, x, 0.0, q, u);
  }

  // ----- Two magnitudes with one rounding ---------------------------------------------------------

  /** Both vanish, both overflow, or both become the smallest positive value. */
  predicate Alike(f: Format, x: real, y: real)
  {
    || y <= Two(Quantum(f) - 1)
    || Threshold(f) <= x
    || (Two(Quantum(f) - 1) < x && y < 3.0 * Two(Quantum(f) - 1))
  }

  lemma {:induction false} ValStep(m: nat, k: int)
    ensures Val(m + 1, k) == Val(m, k) + Two(k)
    ensures Val(0, k) == 0.0 && Val(1, k) == Two(k) && Val(2, k) == 2.0 * Two(k)
  {
    hide Two;
    RDistribute(m as real, 1.0, Two(k));
  }

  /** What rounds up to the smallest positive value is more than half of it, and less than one and a
      half times it. */
  lemma {:induction false} SmallestBounds(f: Format, x: real)
    requires IsNearest(f, x, 1, Quantum(f))
    ensures Two(Quantum(f) - 1) < x < 3.0 * Two(Quantum(f) - 1)
  {
    hide RPow, Pow, P2, Two, Val;
    var q := Quantum(f);
    TwoStep(q - 1);
    SmallSignificands(f);
    ValStep(0, q);
    assert NoFarther(x, 1, q, 0, q) && NoFarther(x, 1, q, 2, q);
  }

  lemma {:induction false} SmallSignificands(f: Format)
    ensures 4 <= P2(Precision(f) - 1) < P2(Precision(f))
    ensures InFormat(f, 0, Quantum(f)) && InFormat(f, 2, Quantum(f)) && Canonical(f, 1, Quantum(f))
  {
    hide Pow, P2;
    P2Zero();
    P2Step(0);
    P2Step(1);
    P2Mono(2, Precision(f) - 1);
    P2Step(Precision(f) - 1);
  }

  lemma {:induction false} SmallestNearest(f: Format, x: real)
    requires Two(Quantum(f) - 1) < x < 3.0 * Two(Quantum(f) - 1)
    ensures IsNearest(f, x, 1, Quantum(f)) && x < Threshold(f)
  {
    hide RPow, Pow, P2, Two, Val, Threshold;
    var q := Quantum(f);
    TwoStep(q - 1);
    SmallSignificands(f);
    ValStep(0, q);
    BelowThreshold(f, 2, q);
    forall n: nat, j: int | InFormat(f, n, j)
      ensures NoFarther(x, 1, q, n, j)
    {
      ValShift(n, q, j - q);
      MultipleNoFarther(x, Two(q), n * P2(j - q), Val(n, j), q);
    }
  }

  lemma {:induction false} MultipleNoFarther(x: real, u: real, n: nat, v: real, q: int)
    requires u == Two(q) && v == Val(n, q) && u < 2.0 * x && 2.0 * x < 3.0 * u
    ensures (n == 1 && v == u) || Abs(x - u) < Abs(x - v)
  {
    hide Two, Val;
    ValStep(0, q);
    if 2 < n { ValStrict(2, n, q); }
  }

  /** From a value's last place, its neighbours bound what rounds to it. */
  lemma {:induction false} NearestFrom(f: Format, x: real, m: nat, k: int)
    requires IsNearest(f, x, m, k) && 0 < m
    ensures Val(m, k) - 0.5 * Two(k) <= x
  {
    hide RPow, Pow, P2, Two, Val;
    ValStep(m - 1, k);
    assert InFormat(f, m - 1, k) && NoFarther(x, m, k, m - 1, k);
  }

  lemma {:induction false} NearestTo(f: Format, x: real, m: nat, k: int)
    requires IsNearest(f, x, m, k) && x < Threshold(f)
    ensures x <= Val(m, k) + 0.5 * Two(k)
  {
    hide RPow, Pow, P2, Two, Val, Threshold;
    ValStep(m, k);
    if m + 1 < P2(Precision(f)) {
      assert InFormat(f, m + 1, k) && NoFarther(x, m, k, m + 1, k);
    } else {
      NextBinade(f, m, k);
      if k < TopQuantum(f) { assert NoFarther(x, m, k, P2(Precision(f) - 1), k + 1); }
    }
  }

  /** After the largest significand comes the smallest one of the next exponent, or the threshold. */
  lemma {:induction false} NextBinade(f: Format, m: nat, k: int)
    requires InFormat(f, m, k) && m + 1 == P2(Precision(f))
    ensures k < TopQuantum(f) ==> InFormat(f, P2(Precision(f) - 1), k + 1) && Val(P2(Precision(f) - 1), k + 1) == Val(m + 1, k)
    ensures k == TopQuantum(f) ==> Threshold(f) == Val(m, k) + 0.5 * Two(k)
  {
    hide RPow, Pow, P2, Two, Val, Threshold;
    var p := Precision(f);
    P2Step(p - 1);
    P2Step(0);
    P2Zero();
    ValShift(P2(p - 1), k, 1);
    if k == TopQuantum(f) {
      var c := P2(p) as real - 0.5;
      ThresholdInUnits(f, Two(k), c);
      ValUnits(m, k, Two(k));
      RDistribute(m as real, 0.5, Two(k));
    }
  }

  /** Two magnitudes as far apart as this round to one finite value only near zero. */
  lemma {:induction false} SharedNearest(f: Format, x: real, y: real, m: nat, k: int)
    requires 0.0 < x && 2.0 * x <= y < Threshold(f) && IsNearest(f, x, m, k) && IsNearest(f, y, m, k)
    ensures Alike(f, x, y)
  {
    hide RPow, Pow, P2, Two, Val, Threshold, IsNearest;
    SmallSignificands(f);
    ValStep(0, k);
    NearestCanonical(f, x, m, k);
    if m == 0 {
      VanishesBelow(f, y, k);
    } else if m == 1 {
      SmallestBounds(f, x);
      SmallestBounds(f, y);
    } else {
      NearestFrom(f, x, m, k);
      NearestTo(f, y, m, k);
      if 2 < m { ValStrict(2, m, k); }
    }
  }

  lemma {:induction false} NearestCanonical(f: Format, x: real, m: nat, k: int)
    requires IsNearest(f, x, m, k)
    ensures Canonical(f, m, k)
  {
  }

  lemma {:induction false} VanishesBelow(f: Format, x: real, k: int)
    requires IsNearest(f, x, 0, k) && 0.0 <= x
    ensures x <= Two(Quantum(f) - 1)
  {
    hide RPow, Pow, P2, Two, Val;
    var q := Quantum(f);
    TwoStep(q - 1);
    SmallSignificands(f);
    ValStep(0, q);
    ValStep(0, k);
    assert NoFarther(x, 0, k, 1, q);
  }

  /** Two magnitudes of which one is at least twice the other have the same roundings exactly in the
      three cases. */
  lemma {:induction false} AlikeExact(f: Format, negative: bool, x: real, y: real)
    requires 0.0 < x && 2.0 * x <= y
    ensures (forall bits: nat :: CorrectlyRounded(f, negative, x, bits) <==> CorrectlyRounded(f, negative, y, bits))
        <==> Alike(f, x, y)
  {
    if Alike(f, x, y) {
      AlikeRounded(f, negative, x, y);
    } else if forall bits: nat :: CorrectlyRounded(f, negative, x, bits) <==> CorrectlyRounded(f, negative, y, bits) {
      hide CorrectlyRounded, Alike;
      var bits := RoundedExists(f, negative, x);
      OnlyAlike(f, negative, x, y, bits);
    }
  }

  lemma {:induction false} AlikeRounded(f: Format, negative: bool, x: real, y: real)
    requires 0.0 < x <= y && Alike(f, x, y)
    ensures forall bits: nat :: CorrectlyRounded(f, negative, x, bits) <==> CorrectlyRounded(f, negative, y, bits)
  {
    hide RPow, Pow, P2, Two, Val, Threshold, Magnitude, IsNearest;
    if y <= Two(Quantum(f) - 1) {
      TinyRounds(x, f, negative);
      TinyRounds(y, f, negative);
      SameRoundings(f, negative, x, y, Zero(negative));
    } else if x < Threshold(f) {
      SmallestNearest(f, x);
      SmallestNearest(f, y);
      forall bits: nat
        ensures CorrectlyRounded(f, negative, x, bits) <==> CorrectlyRounded(f, negative, y, bits)
      {
        NearestRounded(f, negative, x, y, 1, Quantum(f), bits);
        NearestRounded(f, negative, y, x, 1, Quantum(f), bits);
      }
    }
  }

  lemma {:induction false} SameRoundings(f: Format, negative: bool, x: real, y: real, b: nat)
    requires CorrectlyRounded(f, negative, x, b) && CorrectlyRounded(f, negative, y, b)
    ensures forall bits: nat :: CorrectlyRounded(f, negative, x, bits) <==> CorrectlyRounded(f, negative, y, bits)
  {
    hide CorrectlyRounded;
    forall bits: nat
      ensures CorrectlyRounded(f, negative, x, bits) <==> CorrectlyRounded(f, negative, y, bits)
    {
      if CorrectlyRounded(f, negative, x, bits) { RoundedUnique(f, negative, x, bits, b); }
      if CorrectlyRounded(f, negative, y, bits) { RoundedUnique(f, negative, y, bits, b); }
    }
  }

  lemma {:induction false} NearestRounded(f: Format, negative: bool, x: real, y: real, m: nat, k: int, bits: nat)
    requires x < Threshold(f) && y < Threshold(f) && IsNearest(f, x, m, k) && IsNearest(f, y, m, k)
    ensures CorrectlyRounded(f, negative, x, bits) ==> CorrectlyRounded(f, negative, y, bits)
  {
    hide RPow, Pow, P2, Two, Val, Threshold, Magnitude, IsNearest;
    if CorrectlyRounded(f, negative, x, bits) {
      var n, j :| IsNearest(f, x, n, j) && Magnitude(bits) == Val(n, j);
      NearestUnique(f, x, m, k, n, j);
    }
  }

  lemma {:induction false} OnlyAlike(f: Format, negative: bool, x: real, y: real, bits: nat)
    requires 0.0 < x && 2.0 * x <= y
    requires CorrectlyRounded(f, negative, x, bits) && CorrectlyRounded(f, negative, y, bits)
    ensures Alike(f, x, y)
  {
    hide RPow, Pow, P2, Two, Val, Threshold, Magnitude;
    if x < Threshold(f) {
      assert IsFinite(bits) && !IsFinite(Infinity(negative)) by { Unpacked(negative, EXPONENT_MASK, 0); }
      assert y < Threshold(f);
      var m, k :| IsNearest(f, x, m, k) && Magnitude(bits) == Val(m, k);
      var n, j :| IsNearest(f, y, n, j) && Magnitude(bits) == Val(n, j);
      CanonicalUnique(f, m, k, n, j);
      SharedNearest(f, x, y, m, k);
    }
  }
}
