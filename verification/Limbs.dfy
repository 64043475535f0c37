/** Machine words, bitwise operators on them, and the number a little-endian vector of 64-bit
    limbs stands for. */
module Limbs {
  import opened Powers

  const B: nat := 0x1_0000_0000_0000_0000
  const B128: nat := 0x1_0000_0000_0000_0000_0000_0000_0000_0000

  type u32 = x: int | 0 <= x < 0x1_0000_0000
  type u64 = x: int | 0 <= x < 0x1_0000_0000_0000_0000
  type u128 = x: int | 0 <= x < 0x1_0000_0000_0000_0000_0000_0000_0000_0000

  lemma {:induction false} WordSizes()
    ensures P2(32) == 0x1_0000_0000 && P2(64) == B && P2(128) == B128 == B * B
  {
    hide Pow, P2;
    ByteSize();
    P2Add(8, 8);
    P2Add(16, 16);
    P2Add(32, 32);
    P2Add(64, 64);
  }

  lemma {:induction false} ByteSize()
    ensures P2(8) == 0x100
  {
    assert Pow(2, 8) == 0x100;
  }

  // ----- Bitwise operators ------------------------------------------------------------------

  /** Bit `i` of a two's complement number of any sign, `x / 2^i` being floored. */
  predicate BitAt(x: int, i: nat)
  {
    (x / P2(i)) % 2 == 1
  }

  /** Applies `op` to the lowest `width` bits of two numbers, bit by bit. */
  function Bitwise(op: (bool, bool) -> bool, width: nat, x: nat, y: nat): (r: nat)
  {
    if width == 0 then 0
    else (if op(x % 2 == 1, y % 2 == 1) then 1 else 0) + 2 * Bitwise(op, width - 1, x / 2, y / 2)
  }

  function Or(width: nat, x: nat, y: nat): nat
  {
    Bitwise((a, b) => a || b, width, x, y)
  }

  lemma {:induction false} BitwiseBound(op: (bool, bool) -> bool, width: nat, x: nat, y: nat)
    ensures Bitwise(op, width, x, y) < P2(width)
  {
    if width > 0 { BitwiseBound(op, width - 1, x / 2, y / 2); }
  }

  lemma {:induction false} BitAtHalf(x: nat, i: nat)
    ensures BitAt(x, i + 1) == BitAt(x / 2, i)
  {
    DivDiv(x, 2, P2(i));
  }

  lemma {:induction false} BitwiseBit(op: (bool, bool) -> bool, width: nat, x: nat, y: nat, i: nat)
    requires i < width
    ensures BitAt(Bitwise(op, width, x, y), i) == op(BitAt(x, i), BitAt(y, i))
  {
    var r := Bitwise(op, width, x, y);
    var rest := Bitwise(op, width - 1, x / 2, y / 2);
    var low := if op(x % 2 == 1, y % 2 == 1) then 1 else 0;
    assert r == low + 2 * rest;
    hide Pow, Bitwise;
    if i == 0 {
      assert P2(0) == 1 by { PowZero(2); }
    } else {
      assert r / 2 == rest;
      BitwiseBit(op, width - 1, x / 2, y / 2, i - 1);
      BitAtHalf(r, i - 1);
      BitAtHalf(x, i - 1);
      BitAtHalf(y, i - 1);
    }
  }

  /** Disjoint bit fields: the union of a number below `2^k` and a multiple of it is their sum. */
  lemma {:induction false} OrDisjoint(width: nat, k: nat, x: nat, y: nat)
    requires k <= width && x < P2(k) && y % P2(k) == 0 && y < P2(width)
    ensures Or(width, x, y) == x + y
  {
    if width == 0 {
    } else if k == 0 {
      OrZero(width, y);
    } else {
      assert P2(k) == 2 * P2(k - 1);
      var q := y / P2(k);
      assert y == 2 * (q * P2(k - 1));
      DivModUnique(y / 2, P2(k - 1), q, 0);
      OrDisjoint(width - 1, k - 1, x / 2, y / 2);
    }
  }

  lemma {:induction false} OrZero(width: nat, y: nat)
    requires y < P2(width)
    ensures Or(width, 0, y) == y
  {
    if width > 0 { OrZero(width - 1, y / 2); }
  }

  // ----- The value of a limb vector ---------------------------------------------------------

  /** `sum of s[i] * 2^(64 i)`. */
  function LimbValue(s: seq<u64>): nat
  {
    if s == [] then 0 else LimbValue(s[..|s| - 1]) + s[|s| - 1] * Pow(B, |s| - 1)
  }

  predicate Trimmed(s: seq<u64>)
  {
    s != [] ==> s[|s| - 1] != 0
  }

  /** Limb `i` of a vector read as if it went on with zeros forever. */
  function LimbAt(s: seq<u64>, i: nat): u64
  {
    if i < |s| then s[i] else 0
  }

  lemma {:induction false} LimbStep(s: seq<u64>, i: nat)
    requires i < |s|
    ensures LimbValue(s[..i + 1]) == LimbValue(s[..i]) + s[i] * Pow(B, i)
  {
    assert s[..i + 1][..i] == s[..i];
  }

  lemma {:induction false} LimbBound(s: seq<u64>)
    ensures LimbValue(s) < Pow(B, |s|)
  {
    if s != [] {
      var n := |s| - 1;
      LimbBound(s[..n]);
      MulMono(s[n], B - 1, Pow(B, n));
      assert (B - 1) * Pow(B, n) == Pow(B, n + 1) - Pow(B, n);
    }
  }

  lemma {:induction false} LimbSplit(s: seq<u64>, i: nat)
    requires i <= |s|
    ensures LimbValue(s) == LimbValue(s[..i]) + Pow(B, i) * LimbValue(s[i..])
  {
    hide Pow;
    if i == |s| {
      assert s[..i] == s && s[i..] == [];
    } else {
      var n := |s| - 1;
      LimbSplit(s[..n], i);
      assert s[..n][..i] == s[..i] && s[..n][i..] == s[i..][..n - i];
      LimbStep(s[i..], n - i);
      assert s[i..][..n - i + 1] == s[i..];
      PowAdd(B, i, n - i);
      SplitSum(Pow(B, i), LimbValue(s[i..][..n - i]), s[n], Pow(B, n - i));
    }
  }

  lemma {:induction false} SplitSum(a: nat, b: nat, x: nat, c: nat)
    ensures a * (b + x * c) == a * b + x * (a * c)
  {
    assert a * (b + x * c) == a * b + a * (x * c);
    MulAssoc(x, a, c);
    MulAssoc(a, x, c);
  }

  /** Changing one limb changes the value by that limb's share. */
  lemma {:induction false} LimbUpdate(s: seq<u64>, i: nat, x: u64)
    requires i < |s|
    ensures LimbValue(s[i := x]) == LimbValue(s) + (x - s[i]) * Pow(B, i)
  {
    hide Pow, LimbValue;
    var t, p := s[i := x], Pow(B, i);
    LimbSplit(s, i + 1);
    LimbSplit(t, i + 1);
    LimbStep(s, i);
    LimbStep(t, i);
    assert t[i + 1..] == s[i + 1..] && t[..i] == s[..i];
    assert (x - s[i]) * p == x * p - s[i] * p;
  }

  lemma {:induction false} LimbZeros(s: seq<u64>)
    requires forall k :: 0 <= k < |s| ==> s[k] == 0
    ensures LimbValue(s) == 0
  {
    if s != [] { LimbZeros(s[..|s| - 1]); }
  }

  /** Zeros on top do not change the value. */
  lemma {:induction false} LimbPad(s: seq<u64>, n: nat)
    requires n <= |s| && forall k :: n <= k < |s| ==> s[k] == 0
    ensures LimbValue(s) == LimbValue(s[..n])
  {
    LimbSplit(s, n);
    LimbZeros(s[n..]);
  }

  lemma {:induction false} LimbPower(n: nat)
    ensures Pow(B, n) == P2(64 * n)
  {
    WordSizes();
    PowPow(2, 64, n);
  }

  /** The bit length of a trimmed vector is read off its top limb. */
  lemma {:induction false} LimbBitLength(s: seq<u64>)
    requires s != [] && Trimmed(s)
    ensures BitLength(LimbValue(s)) == 64 * (|s| - 1) + BitLength(s[|s| - 1])
  {
    hide Pow;
    var n := |s| - 1;
    LimbBound(s[..n]);
    LimbPower(n);
    BitLengthTop(s[n], 64 * n, LimbValue(s[..n]));
  }

  /** Adding a multiple of a higher power of two leaves a bit alone. */
  lemma {:induction false} BitOfSum(t: nat, k: nat, w: nat, rest: nat)
    requires k < w
    ensures BitAt(t + P2(w) * rest, k) == BitAt(t, k)
  {
    var p, c := P2(k), P2(w - k - 1);
    PowAdd(2, k, w - k);
    assert P2(w - k) == 2 * c;
    var q, r, d := t / p, t % p, 2 * c * rest;
    assert P2(w) * rest == d * p by {
      MulAssoc(p, 2 * c, rest);
    }
    DivModUnique(t + d * p, p, q + d, r) by { assert t + d * p == (q + d) * p + r; }
    assert d == (c * rest) * 2;
    DivModUnique(q + d, 2, q / 2 + c * rest, q % 2);
  }

  /** Bits are found limb by limb. */
  lemma {:induction false} LimbBit(s: seq<u64>, i: nat)
    ensures BitAt(LimbValue(s), i) == BitAt(LimbAt(s, i / 64), i % 64)
  {
    var n, k := i / 64, i % 64;
    LimbPower(n);
    PowAdd(2, 64 * n, k);
    DivDiv(LimbValue(s), Pow(B, n), P2(k));
    if n < |s| {
      LimbDrop(s, n);
      LimbFirst(s[n..]);
      WordSizes();
      BitOfSum(s[n], k, 64, LimbValue(s[n..][1..]));
    } else {
      LimbBound(s);
      PowMono(B, |s|, n);
      DivModUnique(LimbValue(s), Pow(B, n), 0, LimbValue(s));
    }
  }

  lemma {:induction false} LimbFirst(s: seq<u64>)
    requires s != []
    ensures LimbValue(s) == s[0] + B * LimbValue(s[1..])
  {
    LimbSplit(s, 1);
    assert s[..1][..0] == [];
    LimbStep(s, 0);
    assert Pow(B, 1) == B;
  }

  /** Dropping low limbs divides. */
  lemma {:induction false} LimbDrop(s: seq<u64>, n: nat)
    requires n <= |s|
    ensures LimbValue(s) / Pow(B, n) == LimbValue(s[n..])
    ensures LimbValue(s) % Pow(B, n) == LimbValue(s[..n])
  {
    hide Pow, LimbValue;
    var b, high, low := Pow(B, n), LimbValue(s[n..]), LimbValue(s[..n]);
    assert LimbValue(s) == high * b + low by { LimbSplit(s, n); }
    assert low < b by { LimbBound(s[..n]); }
    DivModUnique(LimbValue(s), b, high, low);
  }

  lemma {:induction false} LowLimbs(s: seq<u64>)
    ensures LimbAt(s, 1) * B + LimbAt(s, 0) == LimbValue(s) % B128
  {
    WordSizes();
    if |s| >= 2 {
      LimbFirst(s);
      LimbFirst(s[1..]);
      var rest := LimbValue(s[1..][1..]);
      assert B * (s[1] + B * rest) == B * s[1] + B128 * rest by { MulAssoc(B, B, rest); }
      DivModUnique(LimbValue(s), B128, rest, s[1] * B + s[0]);
    } else if |s| == 1 {
      LimbFirst(s);
      assert LimbValue(s[1..]) == 0;
      DivModUnique(LimbValue(s), B128, 0, s[0]);
    }
  }

  /** `(x + b * rest) mod p` when `p` divides `b`. */
  lemma {:induction false} ModOfSum(x: nat, b: nat, rest: nat, p: nat, c: nat)
    requires 0 < p && b == p * c
    ensures (x + b * rest) % p == x % p
  {
    assert b * rest == c * rest * p by { MulAssoc(p, c, rest); }
    assert (x / p + c * rest) * p == x / p * p + c * rest * p;
    DivModUnique(x + b * rest, p, x / p + c * rest, x % p);
  }

  /** The remainder by a power of two keeps whole limbs and part of one more. */
  lemma {:induction false} LowBits(s: seq<u64>, w: nat, k: nat)
    requires w < |s| && k <= 64
    ensures LimbValue(s) % P2(64 * w + k) == LimbValue(s[..w]) + s[w] % P2(k) * Pow(B, w)
  {
    hide Pow, LimbValue;
    var b, p, v := Pow(B, w), P2(k), LimbValue(s);
    assert P2(64 * w + k) == b * p by { LimbPower(w); PowAdd(2, 64 * w, k); }
    assert v % (b * p) == v % b + b * (v / b % p) by { ModProduct(v, b, p); }
    assert v % b == LimbValue(s[..w]) && v / b == LimbValue(s[w..]) by { LimbDrop(s, w); }
    assert LimbValue(s[w..]) % p == s[w] % p by {
      LimbFirst(s[w..]);
      WordSizes();
      PowAdd(2, k, 64 - k);
      ModOfSum(s[w], B, LimbValue(s[w..][1..]), p, P2(64 - k));
    }
  }

  /** A nonzero limb below the cut leaves a nonzero remainder. */
  lemma {:induction false} LowBitsNonzero(s: seq<u64>, i: nat, count: nat)
    requires i < |s| && 64 * (i + 1) <= count && s[i] != 0
    ensures LimbValue(s) % P2(count) != 0
  {
    LimbDrop(s, i + 1);
    LimbStep(s, i);
    MulStrict(0, s[i], Pow(B, i));
    LimbPower(i + 1);
    PowAdd(2, 64 * (i + 1), count - 64 * (i + 1));
    ModProduct(LimbValue(s), Pow(B, i + 1), P2(count - 64 * (i + 1)));
    MulMono(0, LimbValue(s) / Pow(B, i + 1) % P2(count - 64 * (i + 1)), Pow(B, i + 1));
  }

  lemma {:induction false} ShortValue(s: seq<u64>, count: nat)
    requires 64 * |s| <= count
    ensures LimbValue(s) < P2(count) && LimbValue(s) % P2(count) == LimbValue(s)
  {
    LimbBound(s);
    LimbPower(|s|);
    PowMono(2, 64 * |s|, count);
    DivModUnique(LimbValue(s), P2(count), 0, LimbValue(s));
  }

  /** A word times a divisor `p` of the word size `b = p * c` splits into words without a carry. */
  lemma {:induction false} ShiftParts(x: nat, p: nat, c: nat, b: nat)
    requires 0 < p && 0 < c && b == p * c && x < b
    ensures x * p / b == x / c < p
    ensures x * p % b == x % c * p <= b - p
  {
    var q, r := x / c, x % c;
    MulMono(r + 1, c, p);
    assert (r + 1) * p == r * p + p;
    assert x * p == q * b + r * p by {
      assert x * p == (q * c + r) * p == q * c * p + r * p;
      MulAssoc(q, c, p);
    }
    DivModUnique(x * p, b, q, r * p);
    DivBelow(x, c, p);
  }

  lemma {:induction false} ShiftedLimb(x: u64, low: u64, k: nat)
    requires k < 64 && low < P2(k)
    ensures x * P2(k) < B128
    ensures x * P2(k) / B < P2(k) <= B
    ensures Or(64, low, x * P2(k) % B) == low + x * P2(k) % B < B
    ensures Or(64, 0, x * P2(k) / B) == x * P2(k) / B
  {
    var p, c := P2(k), P2(64 - k);
    assert B == p * c && P2(64) == B && B * B == B128 by { WordSizes(); PowAdd(2, k, 64 - k); }
    assert p <= B by { PowMono(2, k, 64); }
    ShiftParts(x, p, c, B);
    assert x * p < B128 by { DivBelow(x * p, B, B); }
    OrZero(64, x / c);
    DivModUnique(x % c * p, p, x % c, 0);
    OrDisjoint(64, k, low, x % c * p);
  }

  lemma {:induction false} ShiftRightQuotient(high: nat, lq: nat, lr: nat, p: nat, c: nat)
    requires lr < p
    ensures (high * (p * c) + (lq * p + lr)) / p == high * c + lq
  {
    MulAssoc(high, c, p);
    assert (high * c + lq) * p == high * c * p + lq * p;
    DivModUnique(high * (p * c) + (lq * p + lr), p, high * c + lq, lr);
  }

  lemma {:induction false} ShiftRightRemainder(hq: nat, hr: nat, lq: nat, p: nat, c: nat)
    requires hr < p && lq < c
    ensures 0 < p * c && ((hq * p + hr) * c + lq) % (p * c) == hr * c + lq
  {
    assert (hq * p + hr) * c == hq * p * c + hr * c;
    MulAssoc(hq, p, c);
    MulMono(hr + 1, p, c);
    assert (hr + 1) * c == hr * c + c;
    DivModUnique(hq * (p * c) + (hr * c + lq), p * c, hq, hr * c + lq);
  }

  /** The word a right shift builds out of two neighbours. */
  lemma {:induction false} ShiftRightParts(high: nat, low: nat, hq: nat, hr: nat, lq: nat, lr: nat, p: nat, c: nat, b: nat)
    requires hr < p && lr < p && lq < c && high == hq * p + hr && low == lq * p + lr && b == p * c && 0 < b
    ensures p * ((high * b + low) / p % b) == lq * p + hr * b
  {
    ShiftRightRemainder(hq, hr, lq, p, c);
    ShiftRightQuotient(high, lq, lr, p, c);
    ShiftRightScaled(hr, lq, p, c);
  }

  lemma {:induction false} ShiftRightScaled(hr: nat, lq: nat, p: nat, c: nat)
    ensures p * (hr * c + lq) == lq * p + hr * (p * c)
  {
    assert p * (hr * c + lq) == p * (hr * c) + p * lq;
    MulAssoc(p, hr, c);
    MulAssoc(hr, p, c);
  }

  lemma {:induction false} ShiftedRightLimb(high: u64, low: u64, k: nat)
    requires k < 64
    ensures P2(k) * ((high * B + low) / P2(k) % B) == low - low % P2(k) + high % P2(k) * B
  {
    hide Pow, P2;
    var p, c := P2(k), P2(64 - k);
    WordSizes();
    P2Add(k, 64 - k);
    DivBelow(low, p, c);
    var hq, hr := WholeAndRest(high, p);
    var lq, lr := WholeAndRest(low, p);
    ShiftRightParts(high, low, hq, hr, lq, lr, p, c, B);
  }

  lemma {:induction false} WholeAndRest(x: nat, p: nat) returns (q: nat, r: nat)
    requires 0 < p
    ensures x == q * p + r && r < p && q == x / p && r == x % p
  {
    DivNonnegative(x, p);
    q, r := x / p, x % p;
  }
}
