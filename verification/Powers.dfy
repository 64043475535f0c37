/** Powers with natural and integer exponents, bit lengths, and the few facts about products,
    quotients and remainders that every other module leans on. */
module Powers {

  // ----- Products, quotients and remainders -------------------------------------------------

  lemma {:induction false} MulMono(a: int, b: int, c: int)
    requires a <= b && 0 <= c
    ensures a * c <= b * c
  {
  }

  lemma {:induction false} MulStrict(a: int, b: int, c: int)
    requires a < b && 0 < c
    ensures a * c < b * c
  {
  }

  lemma {:induction false} MulCancel(a: int, b: int, c: int)
    requires 0 < c
    ensures a * c < b * c ==> a < b
    ensures a * c <= b * c ==> a <= b
    ensures a * c == b * c ==> a == b
  {
    if a < b { MulStrict(a, b, c); }
    if b < a { MulStrict(b, a, c); }
  }

  lemma {:induction false} MulSwap(a: int, b: int, c: int, d: int)
    ensures (a * b) * (c * d) == (a * c) * (b * d)
  {
    MulAssoc(a * b, c, d);
    MulAssoc(a, b, c);
    MulAssoc(a, c, b);
    MulAssoc(a * c, b, d);
  }

  lemma {:induction false} MulAssoc(a: int, b: int, c: int)
    ensures (a * b) * c == a * (b * c)
  {
  }

  /** The quotient and the remainder are the only pair that splits a number this way. */
  lemma {:induction false} DivModUnique(x: int, d: int, q: int, r: int)
    requires 0 <= r < d && x == q * d + r
    ensures x / d == q && x % d == r
  {
    var q', r' := x / d, x % d;
    assert x == q' * d + r' && 0 <= r' < d;
    assert (q - q') * d == r' - r;
    if q < q' { MulMono(q - q', -1, d); }
    if q' < q { MulMono(1, q - q', d); }
  }

  lemma {:induction false} ModAtMost(x: nat, d: nat)
    requires 0 < d
    ensures x % d <= x
  {
    assert x == x / d * d + x % d;
    MulMono(0, x / d, d);
  }

  lemma {:induction false} DivNonnegative(x: int, d: int)
    requires 0 <= x && 0 < d
    ensures 0 <= x / d
  {
    DivBelow(x, d, 0);
  }

  lemma {:induction false} DivDiv(x: nat, a: nat, b: nat)
    requires 0 < a && 0 < b
    ensures 0 < a * b
    ensures (x / a) / b == x / (a * b)
  {
    var y, r := x / a, x % a;
    var q, s := y / b, y % b;
    assert x == (q * b + s) * a + r;
    assert x == q * (a * b) + (s * a + r);
    MulMono(s, b - 1, a);
    assert (b - 1) * a == a * b - a;
    DivModUnique(x, a * b, q, s * a + r);
  }

  lemma {:induction false} DivMono(x: int, y: int, d: int)
    requires x <= y && 0 < d
    ensures x / d <= y / d
  {
    if y / d < x / d {
      MulMono(y / d + 1, x / d, d);
      assert false;
    }
  }

  /** A quotient is below a bound exactly when the number is below the bound times the divisor. */
  lemma {:induction false} DivBelow(x: int, d: int, q: int)
    requires 0 < d
    ensures x / d < q <==> x < q * d
  {
    var y, r := x / d, x % d;
    assert x == y * d + r;
    if y < q { MulMono(y + 1, q, d); } else { MulMono(q, y, d); }
  }

  /** The remainder by a product starts with the remainder by one factor. */
  lemma {:induction false} ModProduct(x: nat, a: nat, b: nat)
    requires 0 < a && 0 < b
    ensures 0 < a * b
    ensures x % (a * b) == x % a + a * ((x / a) % b)
  {
    var y, r := x / a, x % a;
    var q, s := y / b, y % b;
    assert x == y * a + r && y == q * b + s;
    MulAssoc(q, b, a);
    assert b * a == a * b && s * a == a * s;
    MulMono(s, b - 1, a);
    assert (b - 1) * a == a * b - a;
    DivModUnique(x, a * b, q, a * s + r);
  }

  // ----- Powers -----------------------------------------------------------------------------

  function Pow(b: nat, e: nat): (r: nat)
    ensures 0 < b ==> 0 < r
  {
    if e == 0 then 1 else b * Pow(b, e - 1)
  }

  function P2(e: nat): (r: nat)
    ensures 0 < r
  {
    Pow(2, e)
  }

  lemma {:induction false} PowZero(b: nat)
    ensures Pow(b, 0) == 1
  {
  }

  lemma {:induction false} PowStep(b: nat, e: nat)
    ensures Pow(b, e + 1) == b * Pow(b, e)
  {
  }

  lemma {:induction false} PowAdd(b: nat, x: nat, y: nat)
    ensures Pow(b, x + y) == Pow(b, x) * Pow(b, y)
  {
    hide Pow;
    if x == 0 {
      PowZero(b);
    } else {
      PowAdd(b, x - 1, y);
      PowStep(b, x - 1 + y);
      PowStep(b, x - 1);
      MulAssoc(b, Pow(b, x - 1), Pow(b, y));
    }
  }

  lemma {:induction false} PowMono(b: nat, x: nat, y: nat)
    requires 0 < b && x <= y
    ensures Pow(b, x) <= Pow(b, y)
  {
    PowAdd(b, x, y - x);
    MulMono(1, Pow(b, y - x), Pow(b, x));
  }

  lemma {:induction false} PowStrict(b: nat, x: nat, y: nat)
    requires 1 < b && x < y
    ensures Pow(b, x) < Pow(b, y)
  {
    PowMono(b, x + 1, y);
    MulStrict(1, b, Pow(b, x));
  }

  lemma {:induction false} PowMul(a: nat, b: nat, e: nat)
    ensures Pow(a * b, e) == Pow(a, e) * Pow(b, e)
  {
    if e > 0 {
      PowMul(a, b, e - 1);
      MulSwap(a, b, Pow(a, e - 1), Pow(b, e - 1));
    }
  }

  lemma {:induction false} PowPow(b: nat, x: nat, y: nat)
    ensures Pow(b, x * y) == Pow(Pow(b, x), y)
  {
    if y == 0 {
      assert x * y == 0;
    } else {
      PowPow(b, x, y - 1);
      PowAdd(b, x, x * (y - 1));
      assert x * y == x + x * (y - 1);
    }
  }

  lemma {:induction false} PowGrows(a: nat, b: nat, e: nat)
    requires a <= b
    ensures Pow(a, e) <= Pow(b, e)
  {
    if e > 0 {
      PowGrows(a, b, e - 1);
      MulMono(a, b, Pow(a, e - 1));
      MulMono(Pow(a, e - 1), Pow(b, e - 1), b);
    }
  }

  // The same facts for base two.

  lemma {:induction false} P2Zero()
    ensures P2(0) == 1
  {
  }

  lemma {:induction false} P2Step(e: nat)
    ensures P2(e + 1) == 2 * P2(e)
  {
  }

  lemma {:induction false} P2One()
    ensures P2(1) == 2
  {
    P2Zero();
    P2Step(0);
  }

  lemma {:induction false} P2Add(x: nat, y: nat)
    ensures P2(x + y) == P2(x) * P2(y)
  {
    PowAdd(2, x, y);
  }

  lemma {:induction false} P2Mono(x: nat, y: nat)
    requires x <= y
    ensures P2(x) <= P2(y)
  {
    PowMono(2, x, y);
  }

  lemma {:induction false} P2Strict(x: nat, y: nat)
    requires x < y
    ensures P2(x) < P2(y)
  {
    PowStrict(2, x, y);
  }

  // ----- Bit lengths ------------------------------------------------------------------------

  /** The number of bits up to and including the leading one; zero for zero. */
  function BitLength(n: nat): nat
  {
    if n == 0 then 0 else 1 + BitLength(n / 2)
  }

  lemma {:induction false} BitLengthBounds(n: nat)
    requires 0 < n
    ensures 0 < BitLength(n) && P2(BitLength(n) - 1) <= n < P2(BitLength(n))
  {
    if n > 1 {
      BitLengthBounds(n / 2);
      assert BitLength(n) == 1 + BitLength(n / 2);
    } else {
      assert BitLength(n / 2) == 0;
    }
  }

  lemma {:induction false} BitLengthUnique(n: nat, k: nat)
    requires P2(k) <= n < P2(k + 1)
    ensures BitLength(n) == k + 1
  {
    BitLengthBounds(n);
    var l := BitLength(n);
    if l <= k { PowMono(2, l, k); }
    if k + 1 < l { PowMono(2, k + 1, l - 1); }
  }

  lemma {:induction false} BitLengthAtMost(n: nat, k: nat)
    ensures n < P2(k) <==> BitLength(n) <= k
  {
    if n > 0 {
      BitLengthBounds(n);
      if BitLength(n) <= k { PowMono(2, BitLength(n), k); } else { PowMono(2, k, BitLength(n) - 1); }
    }
  }

  lemma {:induction false} BitLengthMono(m: nat, n: nat)
    requires m <= n
    ensures BitLength(m) <= BitLength(n)
  {
    BitLengthAtMost(n, BitLength(n));
    BitLengthAtMost(m, BitLength(n));
  }

  lemma {:induction false} BitLengthShift(n: nat, k: nat)
    requires 0 < n
    ensures 0 < n * P2(k) && BitLength(n * P2(k)) == BitLength(n) + k
  {
    BitLengthBounds(n);
    var l := BitLength(n) - 1;
    PowAdd(2, l, k);
    PowAdd(2, l + 1, k);
    MulMono(P2(l), n, P2(k));
    MulStrict(n, P2(l + 1), P2(k));
    BitLengthUnique(n * P2(k), l + k);
  }

  /** Adding low bits under a shifted number does not change where its leading bit is. */
  lemma {:induction false} BitLengthTop(t: nat, k: nat, low: nat)
    requires 0 < t && low < P2(k)
    ensures BitLength(t * P2(k) + low) == BitLength(t) + k
  {
    BitLengthBounds(t);
    var l, p := BitLength(t) - 1, P2(k);
    PowAdd(2, l, k);
    PowAdd(2, l + 1, k);
    MulMono(P2(l), t, p);
    MulMono(t + 1, P2(l + 1), p);
    assert (t + 1) * p == t * p + p;
    BitLengthUnique(t * p + low, l + k);
  }

  // ----- Products of reals --------------------------------------------------------------------

  lemma {:induction false} RMulAssoc(a: real, b: real, c: real)
    ensures (a * b) * c == a * (b * c)
  {
  }

  lemma {:induction false} RMulSwap(a: real, b: real, c: real, d: real)
    ensures (a * b) * (c * d) == (a * c) * (b * d)
  {
    RMulAssoc(a * b, c, d);
    RMulAssoc(a, b, c);
    RMulAssoc(a, c, b);
    RMulAssoc(a * c, b, d);
  }

  lemma {:induction false} RMulMono(a: real, b: real, c: real)
    requires a <= b && 0.0 <= c
    ensures a * c <= b * c
  {
  }

  lemma {:induction false} RMulStrict(a: real, b: real, c: real)
    requires a < b && 0.0 < c
    ensures a * c < b * c
  {
  }

  lemma {:induction false} RMulCancel(a: real, b: real, c: real)
    requires 0.0 < c
    ensures a * c < b * c <==> a < b
    ensures a * c <= b * c <==> a <= b
    ensures a * c == b * c <==> a == b
  {
    if a < b { RMulStrict(a, b, c); }
    if b < a { RMulStrict(b, a, c); }
  }

  /** A product, named so that proofs about several of them can treat each as one number. */
  function Times(a: real, b: real): real
  {
    a * b
  }

  lemma {:induction false} TimesOne(u: real)
    ensures Times(u, 1.0) == u && Times(1.0, u) == u
  {
  }

  lemma {:induction false} TimesSum(u: real, s: real, t: real)
    ensures Times(u, s + t) == Times(u, s) + Times(u, t)
    ensures Times(u, -t) == -Times(u, t) && Times(u, 0.0) == 0.0
  {
  }

  lemma {:induction false} TimesWithin(u: real, s: real, t: real, bound: real)
    requires 0.0 <= u && Abs(s - t) <= bound
    ensures Abs(Times(u, s) - Times(u, t)) <= Times(u, bound)
  {
    RMulMono(s - t, bound, u);
    RMulMono(t - s, bound, u);
  }

  /** The order of two products by one factor, over names for the products. */
  lemma {:induction false} ScaledOrder(s: real, t: real, x: real, y: real, u: real)
    requires 0.0 < u && s == x * u && t == y * u
    ensures s <= t <==> x <= y
    ensures s < t <==> x < y
  {
    RMulCancel(x, y, u);
  }

  lemma {:induction false} RDistribute(a: real, b: real, c: real)
    ensures (a + b) * c == a * c + b * c
    ensures (a - b) * c == a * c - b * c
  {
  }

  /** The product of two integers is the same number whichever way it is computed. */
  lemma {:induction false} RealMul(a: int, b: int)
    ensures (a * b) as real == a as real * b as real
  {
  }

  function Abs(x: real): (r: real)
    ensures 0.0 <= r
  {
    if x < 0.0 then -x else x
  }

  lemma {:induction false} AbsScale(x: real, c: real)
    requires 0.0 < c
    ensures Abs(x * c) == Abs(x) * c
  {
    if x < 0.0 { RMulStrict(x, 0.0, c); } else { RMulMono(0.0, x, c); }
  }

  // ----- Powers as reals, with exponents of either sign ---------------------------------------

  /** `b^e` for an integer exponent. The proofs below hide this definition: what they use are
      its sign, RPowZero, RPowNat and RPowStep. */
  function RPow(b: nat, e: int): (r: real)
    requires 0 < b
    ensures 0.0 < r
  {
    if 0 <= e then Pow(b, e) as real else 1.0 / Pow(b, -e) as real
  }

  function Two(e: int): (r: real)
    ensures 0.0 < r
  {
    RPow(2, e)
  }

  lemma {:induction false} RPowNat(b: nat, n: int)
    requires 0 < b && 0 <= n
    ensures RPow(b, n) == Pow(b, n) as real
  {
  }

  lemma {:induction false} RPowZero(b: nat)
    requires 0 < b
    ensures RPow(b, 0) == 1.0
  {
  }

  lemma {:induction false} RPowStep(b: nat, e: int)
    requires 0 < b
    ensures RPow(b, e + 1) == b as real * RPow(b, e)
  {
    if e < 0 {
      assert Pow(b, -e) == b * Pow(b, -e - 1);
      var p, q := Pow(b, -e) as real, Pow(b, -e - 1) as real;
      assert p == b as real * q;
      assert b as real * (1.0 / p) == 1.0 / q;
    }
  }

  lemma {:induction false} RMulStep(u: real, b: real, t: real, s: real, s': real, t': real)
    requires s == u * t && s' == b * s && t' == b * t
    ensures s' == u * t'
  {
  }

  lemma {:induction false} RPowAddNat(b: nat, x: int, n: int)
    requires 0 < b && 0 <= n
    ensures RPow(b, x + n) == RPow(b, x) * RPow(b, n)
    decreases n
  {
    hide RPow;
    if n == 0 {
      RPowZero(b);
    } else {
      RPowAddNat(b, x, n - 1);
      RPowStep(b, x + (n - 1));
      RPowStep(b, n - 1);
      RMulStep(RPow(b, x), b as real, RPow(b, n - 1), RPow(b, x + (n - 1)), RPow(b, x + n), RPow(b, n));
    }
  }

  lemma {:induction false} RPowInverse(b: nat, n: int)
    requires 0 < b && 0 <= n
    ensures RPow(b, -n) * RPow(b, n) == 1.0
  {
    hide RPow;
    RPowAddNat(b, -n, n);
    RPowZero(b);
  }

  lemma {:induction false} RPowAdd(b: nat, x: int, y: int)
    requires 0 < b
    ensures RPow(b, x + y) == RPow(b, x) * RPow(b, y)
  {
    hide RPow;
    if 0 <= y {
      RPowAddNat(b, x, y);
    } else {
      RPowAddNat(b, x + y, -y);
      RPowInverse(b, -y);
      RMulAssoc(RPow(b, x + y), RPow(b, -y), RPow(b, y));
    }
  }

  /** The same, with the product named. */
  lemma {:induction false} RPowTimes(b: nat, x: int, y: int)
    requires 0 < b
    ensures RPow(b, x + y) == Times(RPow(b, x), RPow(b, y))
  {
    hide RPow;
    RPowAdd(b, x, y);
  }

  lemma {:induction false} TimesBounds(low: real, s: real, high: real, u: real)
    requires low <= s < high && 0.0 < u
    ensures Times(low, u) <= Times(s, u) < Times(high, u) && Times(1.0, u) == u && Times(s, u) == s * u
  {
    RMulMono(low, s, u);
    RMulStrict(s, high, u);
  }

  lemma {:induction false} RPowMono(b: nat, x: int, y: int)
    requires 0 < b && x <= y
    ensures RPow(b, x) <= RPow(b, y)
  {
    hide RPow;
    RPowAddNat(b, x, y - x);
    RPowNat(b, y - x);
    RMulMono(1.0, RPow(b, y - x), RPow(b, x));
  }

  lemma {:induction false} RPowMulNat(a: nat, b: nat, n: int)
    requires 0 < a && 0 < b && 0 <= n
    ensures RPow(a, n) * RPow(b, n) == RPow(a * b, n)
  {
    hide RPow;
    PowMul(a, b, n);
    RPowNat(a, n);
    RPowNat(b, n);
    RPowNat(a * b, n);
    RealMul(Pow(a, n), Pow(b, n));
  }

  lemma {:induction false} RPowMul(a: nat, b: nat, e: int)
    requires 0 < a && 0 < b
    ensures 0 < a * b && RPow(a * b, e) == RPow(a, e) * RPow(b, e)
  {
    hide RPow;
    assert 0 < a * b;
    if 0 <= e {
      RPowMulNat(a, b, e);
    } else {
      RPowMulNat(a, b, -e);
      RPowInverse(a, -e);
      RPowInverse(b, -e);
      RPowInverse(a * b, -e);
      var x, y := RPow(a, e) * RPow(b, e), RPow(a, -e) * RPow(b, -e);
      RMulSwap(RPow(a, e), RPow(b, e), RPow(a, -e), RPow(b, -e));
      assert x * y == 1.0;
      RMulCancel(x, RPow(a * b, e), y);
    }
  }

  // The same facts for base two, in the form the rounding proofs use.

  lemma {:induction false} TwoAdd(x: int, y: int)
    ensures Two(x + y) == Two(x) * Two(y)
  {
    hide RPow;
    RPowAdd(2, x, y);
  }

  lemma {:induction false} TwoNat(n: int)
    requires 0 <= n
    ensures Two(n) == P2(n) as real
  {
  }

  lemma {:induction false} TwoMono(x: int, y: int)
    requires x <= y
    ensures Two(x) <= Two(y)
  {
    hide RPow;
    RPowMono(2, x, y);
  }

  lemma {:induction false} TwoStep(x: int)
    ensures Two(x + 1) == 2.0 * Two(x)
  {
    hide RPow;
    RPowStep(2, x);
  }
}
