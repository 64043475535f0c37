/** The unbounded natural number: a vector of 64-bit limbs, least significant first, that its
    operations update in place and leave without a zero limb on top. Every contract speaks of the
    number the vector stands for. */
module BigUints {
  import opened Powers
  import opened Digits
  import opened Limbs

  datatype Ordering = Less | Equal | Greater

  function Compared(x: int, y: int): Ordering
  {
    if x < y then Less else if x == y then Equal else Greater
  }

  // ----- Steps of the limb loops --------------------------------------------------------------

  function Zeros(n: nat): (s: seq<u64>)
    ensures |s| == n
    ensures forall k :: 0 <= k < n ==> s[k] == 0
  {
    seq(n, _ => 0)
  }

  /** A vector resized to `n` limbs: zeros are added on top, or limbs dropped from it. */
  function Resized(s: seq<u64>, n: nat): (r: seq<u64>)
    ensures |r| == n
    ensures forall k :: 0 <= k < n ==> r[k] == LimbAt(s, k)
  {
    if n <= |s| then s[..n] else s + Zeros(n - |s|)
  }

  lemma {:induction false} LimbPush(s: seq<u64>, x: u64)
    ensures LimbValue(s + [x]) == LimbValue(s) + x * Pow(B, |s|)
  {
    assert (s + [x])[..|s|] == s;
  }

  lemma {:induction false} ResizedValue(s: seq<u64>, n: nat)
    requires |s| <= n
    ensures LimbValue(Resized(s, n)) == LimbValue(s)
  {
    LimbPad(Resized(s, n), |s|);
    assert Resized(s, n)[..|s|] == s;
  }

  /** Writing limb `i` extends the value of the finished part. */
  lemma {:induction false} LimbStore(s: seq<u64>, i: nat, x: u64)
    requires i < |s|
    ensures LimbValue(s[i := x][..i + 1]) == LimbValue(s[..i]) + x * Pow(B, i)
  {
    LimbStep(s[i := x], i);
    assert s[i := x][..i] == s[..i];
  }

  lemma {:induction false} CarryStep(p: nat, l: int, r: int, carry: int, x: int, carry': int)
    requires l + r + carry == x + B * carry'
    ensures l * p + r * p + carry * p == x * p + carry' * (B * p)
  {
    assert (l + r + carry) * p == (x + B * carry') * p;
    MulAssoc(B, carry', p);
    MulAssoc(carry', B, p);
  }

  lemma {:induction false} TopLimb(s: seq<u64>)
    requires s != [] && Trimmed(s)
    ensures Pow(B, |s| - 1) <= LimbValue(s)
  {
    MulMono(1, s[|s| - 1], Pow(B, |s| - 1));
  }

  lemma {:induction false} ShorterIsLess(s: seq<u64>, t: seq<u64>)
    requires |s| < |t| && Trimmed(t)
    ensures LimbValue(s) < LimbValue(t)
  {
    LimbBound(s);
    TopLimb(t);
    PowMono(B, |s|, |t| - 1);
  }

  /** The highest limb on which two vectors of one length differ decides their order. */
  lemma {:induction false} HighestDifference(s: seq<u64>, t: seq<u64>, i: nat)
    requires |s| == |t| && i < |s| && s[i] < t[i]
    requires forall k :: i < k < |s| ==> s[k] == t[k]
    ensures LimbValue(s) < LimbValue(t)
  {
    hide Pow, LimbValue;
    var b := Pow(B, i);
    LimbSplitAt(s, i);
    LimbSplitAt(t, i);
    assert s[i + 1..] == t[i + 1..];
    assert LimbValue(s[..i]) < b by { LimbBound(s[..i]); }
    assert s[i] * b + b <= t[i] * b by { MulMono(s[i] + 1, t[i], b); }
  }

  lemma {:induction false} LimbSplitAt(s: seq<u64>, i: nat)
    requires i < |s|
    ensures LimbValue(s) == LimbValue(s[..i]) + s[i] * Pow(B, i) + Pow(B, i + 1) * LimbValue(s[i + 1..])
  {
    LimbSplit(s, i + 1);
    LimbStep(s, i);
  }

  /** Trimmed vectors stand for different numbers unless they are the same vector. */
  lemma {:induction false} TrimmedUnique(s: seq<u64>, t: seq<u64>)
    requires Trimmed(s) && Trimmed(t) && LimbValue(s) == LimbValue(t)
    ensures s == t
  {
    if |s| < |t| { ShorterIsLess(s, t); }
    if |t| < |s| { ShorterIsLess(t, s); }
    if s != t {
      var i := HighestDifferent(s, t);
      if s[i] < t[i] { HighestDifference(s, t, i); } else { HighestDifference(t, s, i); }
    }
  }

  lemma {:induction false} HighestDifferent(s: seq<u64>, t: seq<u64>) returns (i: nat)
    requires |s| == |t| && s != t
    ensures i < |s| && s[i] != t[i] && forall k :: i < k < |s| ==> s[k] == t[k]
    decreases |s|
  {
    var n := |s| - 1;
    if s[n] != t[n] {
      i := n;
    } else {
      assert s == s[..n] + [s[n]] && t == t[..n] + [t[n]];
      i := HighestDifferent(s[..n], t[..n]);
    }
  }

  ghost predicate ShiftingLeft(limbs: seq<u64>, s: seq<u64>, i: nat, limbShift: nat, p: nat)
    requires i <= |limbs| && i + limbShift < |s|
  {
    LimbValue(s[..i + limbShift + 1]) == LimbValue(limbs[..i]) * p * Pow(B, limbShift)
  }

  lemma {:induction false} ShiftLeftStart(limbs: seq<u64>, s: seq<u64>, limbShift: nat, p: nat)
    requires limbShift < |s| && forall k :: 0 <= k < |s| ==> s[k] == 0
    ensures ShiftingLeft(limbs, s, 0, limbShift, p)
  {
    LimbZeros(s[..limbShift + 1]);
    assert limbs[..0] == [];
  }

  lemma {:induction false} ShiftLeftEnd(limbs: seq<u64>, s: seq<u64>, limbShift: nat, p: nat)
    requires |s| == |limbs| + limbShift + 1 && ShiftingLeft(limbs, s, |limbs|, limbShift, p)
    ensures LimbValue(s) == LimbValue(limbs) * p * Pow(B, limbShift)
  {
    assert s[..|s|] == s && limbs[..|limbs|] == limbs;
  }

  lemma {:induction false} ShiftLeftStep(limbs: seq<u64>, s: seq<u64>, i: nat, limbShift: nat, p: nat)
    requires i < |limbs| && i + limbShift + 1 < |s| && s[i + limbShift + 1] == 0
    requires limbs[i] * p / B < B && s[i + limbShift] + limbs[i] * p % B < B
    requires ShiftingLeft(limbs, s, i, limbShift, p)
    ensures ShiftingLeft(limbs, s[i + limbShift := s[i + limbShift] + limbs[i] * p % B]
                                 [i + limbShift + 1 := limbs[i] * p / B], i + 1, limbShift, p)
  {
    hide Pow, LimbValue;
    var at := i + limbShift;
    var q, low, high := Pow(B, at), limbs[i] * p % B, limbs[i] * p / B;
    var s' := s[at := s[at] + low][at + 1 := high];
    assert LimbValue(s'[..at + 2]) == LimbValue(s[..at]) + (s[at] + low) * q + high * (B * q) by {
      LimbStep(s', at);
      LimbStep(s', at + 1);
      assert s'[..at] == s[..at];
      assert Pow(B, at + 1) == B * q by { PowStep(B, at); }
    }
    LimbStep(s, at);
    CarryStep(q, s[at], limbs[i] * p, 0, s[at] + low, high);
    LimbStep(limbs, i);
    assert q == Pow(B, i) * Pow(B, limbShift) by { PowAdd(B, i, limbShift); }
    Scaled(LimbValue(limbs[..i]), limbs[i], Pow(B, i), p, Pow(B, limbShift));
  }

  lemma {:induction false} Scaled(v: nat, x: nat, b: nat, p: nat, s: nat)
    ensures (v + x * b) * p * s == v * p * s + x * p * (b * s)
  {
    assert (v + x * b) * p == v * p + x * b * p;
    assert (v * p + x * b * p) * s == v * p * s + x * b * p * s;
    MulAssoc(x, b, p);
    MulAssoc(x, p, b);
    MulAssoc(x * p, b, s);
  }

  lemma {:induction false} ShiftRightSum(p: nat, b: nat, done: nat, limb: nat, low: nat, highRest: nat)
    requires 0 < p && p * limb == low - low % p + highRest * B
    ensures p * (done + limb * b) == p * done - low % p * b + low * b + highRest * (B * b)
  {
    assert p * (done + limb * b) == p * done + p * (limb * b);
    MulAssoc(p, limb, b);
    assert (low - low % p + highRest * B) * b == low * b - low % p * b + highRest * B * b;
    MulAssoc(highRest, B, b);
  }

  /** What the limb loops keep after `i` limbs, with `carry` going out of the finished part. */
  ghost predicate Carried(l: seq<u64>, r: seq<u64>, s: seq<u64>, i: nat, carry: int)
    requires i <= |l| == |r| == |s|
  {
    LimbValue(s[..i]) + carry * Pow(B, i) == LimbValue(l[..i]) + LimbValue(r[..i])
  }

  lemma {:induction false} AddStep(l: seq<u64>, r: seq<u64>, s: seq<u64>, i: nat, carry: nat, x: u64, carry': nat)
    requires i < |l| == |r| == |s| && Carried(l, r, s, i, carry)
    requires l[i] + r[i] + carry == x + B * carry'
    ensures Carried(l, r, s[i := x], i + 1, carry')
  {
    LimbStore(s, i, x);
    LimbStep(l, i);
    LimbStep(r, i);
    CarryStep(Pow(B, i), l[i], r[i], carry, x, carry');
  }

  ghost predicate Borrowed(l: seq<u64>, r: seq<u64>, s: seq<u64>, i: nat, borrow: int)
    requires i <= |l| == |r| == |s|
  {
    LimbValue(s[..i]) + LimbValue(r[..i]) == LimbValue(l[..i]) + borrow * Pow(B, i)
  }

  lemma {:induction false} SubtractStep(l: seq<u64>, r: seq<u64>, s: seq<u64>, i: nat, borrow: nat, x: u64, borrow': nat)
    requires i < |l| == |r| == |s| && Borrowed(l, r, s, i, borrow)
    requires x == l[i] - r[i] - borrow + B * borrow'
    ensures Borrowed(l, r, s[i := x], i + 1, borrow')
  {
    LimbStore(s, i, x);
    LimbStep(l, i);
    LimbStep(r, i);
    BorrowStep(Pow(B, i), l[i], r[i], borrow, x, borrow');
  }

  lemma {:induction false} NothingCarried(l: seq<u64>, r: seq<u64>)
    requires |l| == |r|
    ensures Carried(l, r, l, 0, 0) && Borrowed(l, r, l, 0, 0)
  {
    assert l[..0] == [] && r[..0] == [];
  }

  lemma {:induction false} BorrowStep(p: nat, l: int, r: int, borrow: int, x: int, borrow': int)
    requires x == l - r - borrow + B * borrow'
    ensures x * p + r * p == l * p - borrow * p + borrow' * (B * p)
  {
    CarryStep(p, l - r - borrow, 0, 0, x, 0 - borrow');
    assert (l - r - borrow) * p == l * p - r * p - borrow * p;
    assert (0 - borrow') * (B * p) == 0 - borrow' * (B * p);
  }

  ghost predicate Scaling(l: seq<u64>, s: seq<u64>, i: nat, factor: nat, addend: nat, carry: nat)
    requires i <= |l| == |s|
  {
    LimbValue(s[..i]) + carry * Pow(B, i) == LimbValue(l[..i]) * factor + addend
  }

  lemma {:induction false} ScaleStep(l: seq<u64>, s: seq<u64>, i: nat, factor: nat, addend: nat, carry: nat,
      x: u64, carry': nat)
    requires i < |l| == |s| && Scaling(l, s, i, factor, addend, carry)
    requires l[i] * factor + carry == x + B * carry'
    ensures Scaling(l, s[i := x], i + 1, factor, addend, carry')
  {
    LimbStore(s, i, x);
    LimbStep(l, i);
    CarryStep(Pow(B, i), l[i] * factor, 0, carry, x, carry');
    Spread(LimbValue(l[..i]), l[i], Pow(B, i), factor);
  }

  lemma {:induction false} NothingScaled(l: seq<u64>, factor: nat, addend: nat)
    ensures Scaling(l, l, 0, factor, addend, addend)
  {
    assert l[..0] == [];
    assert Pow(B, 0) == 1;
  }

  lemma {:induction false} ScaleEnd(l: seq<u64>, s: seq<u64>, factor: nat, addend: nat, carry: nat)
    requires |l| == |s| && Scaling(l, s, |s|, factor, addend, carry)
    ensures LimbValue(s) + carry * Pow(B, |s|) == LimbValue(l) * factor + addend
  {
    assert s[..|s|] == s && l[..|l|] == l;
  }

  lemma {:induction false} Spread(v: nat, x: nat, p: nat, factor: nat)
    ensures (v + x * p) * factor == v * factor + x * factor * p
  {
    MulAssoc(x, factor, p);
    MulAssoc(x, p, factor);
  }

  ghost predicate ShiftingRight(kept: seq<u64>, s: seq<u64>, i: nat, p: nat)
    requires i <= |kept| == |s| && kept != [] && 0 < p
  {
    p * LimbValue(s[..i]) + kept[0] % p == LimbValue(kept[..i]) + LimbAt(kept, i) % p * Pow(B, i)
  }

  lemma {:induction false} ShiftRightStep(kept: seq<u64>, s: seq<u64>, i: nat, k: nat)
    requires i < |kept| == |s| && k < 64 && ShiftingRight(kept, s, i, P2(k))
    ensures ShiftingRight(kept, s[i := (LimbAt(kept, i + 1) * B + kept[i]) / P2(k) % B], i + 1, P2(k))
  {
    var p, b, low, high := P2(k), Pow(B, i), kept[i], LimbAt(kept, i + 1);
    var limb := (high * B + low) / p % B;
    assert p * limb == low - low % p + high % p * B by { ShiftedRightLimb(high, low, k); }
    LimbStore(s, i, limb);
    LimbStep(kept, i);
    ShiftRightSum(p, b, LimbValue(s[..i]), limb, low, high % p);
  }

  lemma {:induction false} NothingShifted(kept: seq<u64>, s: seq<u64>, p: nat)
    requires kept != [] && 0 < p && |kept| == |s|
    ensures ShiftingRight(kept, s, 0, p)
  {
    assert s[..0] == [] && kept[..0] == [];
    assert Pow(B, 0) == 1;
  }

  /** Dropping bits is dropping whole limbs and then fewer than 64 bits. */
  lemma {:induction false} DropBits(s: seq<u64>, count: nat)
    ensures count / 64 >= |s| ==> LimbValue(s) / P2(count) == 0
    ensures count / 64 < |s| ==> LimbValue(s) / P2(count) == LimbValue(s[count / 64..]) / P2(count % 64)
  {
    hide Pow, LimbValue;
    var w, k := count / 64, count % 64;
    if w >= |s| {
      ShortValue(s, count);
      DivModUnique(LimbValue(s), P2(count), 0, LimbValue(s));
    } else {
      LimbPower(w);
      PowAdd(2, 64 * w, k);
      DivDiv(LimbValue(s), Pow(B, w), P2(k));
      LimbDrop(s, w);
    }
  }

  lemma {:induction false} ShiftRightEnd(kept: seq<u64>, s: seq<u64>, p: nat)
    requires kept != [] && 0 < p && |kept| == |s| && ShiftingRight(kept, s, |s|, p)
    ensures LimbValue(s) == LimbValue(kept) / p
  {
    hide Pow, LimbValue, ShiftingRight;
    ShiftedSum(kept, s, p);
    DivModUnique(LimbValue(kept), p, LimbValue(s), kept[0] % p);
  }

  lemma {:induction false} ShiftedSum(kept: seq<u64>, s: seq<u64>, p: nat)
    requires kept != [] && 0 < p && |kept| == |s| && ShiftingRight(kept, s, |s|, p)
    ensures LimbValue(kept) == LimbValue(s) * p + kept[0] % p
  {
    hide Pow, LimbValue;
    assert s[..|s|] == s && kept[..|s|] == kept;
    ZeroMod(p);
    NoShare(Pow(B, |s|));
  }

  lemma {:induction false} ZeroMod(p: nat)
    requires 0 < p
    ensures 0 % p == 0
  {
  }

  lemma {:induction false} NoShare(x: int)
    ensures 0 * x == 0
  {
  }

  lemma {:induction false} MaskedTop(s: seq<u64>, w: nat, k: nat)
    requires w < |s| && k < 64
    ensures s[w] % P2(k) <= s[w]
    ensures LimbValue(s[..w + 1][w := s[w] % P2(k)]) == LimbValue(s) % P2(64 * w + k)
  {
    hide Pow, LimbValue;
    var x := s[w] % P2(k);
    assert x <= s[w] by { ModAtMost(s[w], P2(k)); }
    LowBits(s, w, k);
    var t := s[..w + 1][w := x];
    assert t[..w] == s[..w] && t[..w + 1] == t;
    LimbStep(t, w);
  }

  ghost predicate Dividing(l: seq<u64>, s: seq<u64>, i: nat, divisor: nat, rest: nat)
    requires i <= |l| == |s|
  {
    LimbValue(l[i..]) == LimbValue(s[i..]) * divisor + rest
  }

  lemma {:induction false} DivideStep(l: seq<u64>, s: seq<u64>, i: nat, divisor: nat, rest: nat)
    requires 0 < i <= |l| == |s| && rest < divisor && Dividing(l, s, i, divisor, rest)
    ensures (rest * B + l[i - 1]) / divisor < B
    ensures Dividing(l, s[i - 1 := (rest * B + l[i - 1]) / divisor], i - 1, divisor, (rest * B + l[i - 1]) % divisor)
  {
    hide Pow, LimbValue;
    var q, r := NextQuotient(rest, l[i - 1], divisor);
    var s' := s[i - 1 := q];
    LimbFirst(l[i - 1..]);
    assert l[i - 1..][1..] == l[i..];
    LimbFirst(s'[i - 1..]);
    assert s'[i - 1..][1..] == s[i..];
    DivideSum(B, LimbValue(s[i..]), divisor, rest, l[i - 1], q, r);
  }

  lemma {:induction false} NextQuotient(rest: nat, limb: u64, divisor: nat) returns (q: u64, r: nat)
    requires rest < divisor
    ensures q == (rest * B + limb) / divisor && r == (rest * B + limb) % divisor
    ensures rest * B + limb == q * divisor + r && r < divisor
  {
    MulMono(rest + 1, divisor, B);
    DivBelow(rest * B + limb, divisor, B);
    DivNonnegative(rest * B + limb, divisor);
    q, r := (rest * B + limb) / divisor, (rest * B + limb) % divisor;
  }

  lemma {:induction false} NothingDivided(l: seq<u64>, divisor: nat)
    ensures Dividing(l, l, |l|, divisor, 0)
  {
    assert l[|l|..] == [];
  }

  lemma {:induction false} DivideEnd(l: seq<u64>, s: seq<u64>, divisor: nat, rest: nat)
    requires |l| == |s| && rest < divisor && Dividing(l, s, 0, divisor, rest)
    ensures LimbValue(s) == LimbValue(l) / divisor && rest == LimbValue(l) % divisor
  {
    assert l[0..] == l && s[0..] == s;
    DivModUnique(LimbValue(l), divisor, LimbValue(s), rest);
  }

  lemma {:induction false} DivideSum(b: nat, done: nat, divisor: nat, rest: nat, limb: nat, q: nat, r: nat)
    requires rest * b + limb == q * divisor + r
    ensures limb + b * (done * divisor + rest) == (q + b * done) * divisor + r
  {
    MulAssoc(b, done, divisor);
    assert (q + b * done) * divisor == q * divisor + b * done * divisor;
    assert b * (done * divisor + rest) == b * (done * divisor) + b * rest;
  }

  lemma {:induction false} NoCarryOut(l: seq<u64>, r: seq<u64>, s: seq<u64>, carry: nat)
    requires |l| == |r| == |s| > 0 && l[|l| - 1] == r[|l| - 1] == 0
    requires Carried(l, r, s, |s|, carry)
    ensures LimbValue(s) == LimbValue(l) + LimbValue(r)
  {
    var n := |l| - 1;
    assert s[..|s|] == s && l[..|s|] == l && r[..|s|] == r;
    LimbBound(l[..n]);
    LimbBound(r[..n]);
    hide Pow, LimbValue;
    assert LimbValue(l) == LimbValue(l[..n]) && LimbValue(r) == LimbValue(r[..n]) by { LimbPad(l, n); LimbPad(r, n); }
    assert Pow(B, n + 1) >= 2 * Pow(B, n) by { PowStep(B, n); MulMono(2, B, Pow(B, n)); }
    if carry > 0 { MulMono(1, carry, Pow(B, n + 1)); }
  }

  lemma {:induction false} NoBorrowOut(l: seq<u64>, r: seq<u64>, s: seq<u64>, borrow: nat)
    requires |l| == |r| == |s|
    requires Borrowed(l, r, s, |s|, borrow)
    requires LimbValue(r) <= LimbValue(l)
    ensures LimbValue(s) == LimbValue(l) - LimbValue(r)
  {
    assert s[..|s|] == s && l[..|s|] == l && r[..|s|] == r;
    LimbBound(s);
    if borrow > 0 { MulMono(1, borrow, Pow(B, |s|)); }
  }

  lemma {:induction false} WrappedDifference(x: int, borrow: nat)
    requires 0 - B <= x < B && borrow == if x < 0 then 1 else 0
    ensures x % B == x + B * borrow
  {
    DivModUnique(x, B, 0 - borrow, x + B * borrow);
  }

  /** One cell of a product never outgrows 128 bits. */
  lemma {:induction false} CellFits(x: u64, y: u64, below: u64, carry: u64)
    ensures x * y + below + carry < B128
    ensures (x * y + below + carry) / B < B
  {
    MulMono(x, B - 1, y);
    MulMono(y, B - 1, B - 1);
    WordSizes();
    DivBelow(x * y + below + carry, B, B);
  }

  // Doubling.

  lemma {:induction false} DoubledLimb(x: u64, carry: nat)
    requires carry <= 1
    ensures Or(64, carry, x * 2 % B) == carry + x * 2 % B < B
    ensures x * 2 + carry == (carry + x * 2 % B) + B * (x / P2(63)) && x / P2(63) <= 1
    ensures x / P2(63) == 0 ==> carry + x * 2 % B >= x
  {
    hide Pow, P2;
    var h := P2(63);
    WordSizes();
    P2Step(63);
    P2Zero();
    P2Step(0);
    DivBelow(x, h, 2);
    var q := x / h;
    DivModUnique(x * 2, B, q, (x - q * h) * 2);
    OrDisjoint(64, 1, carry, x * 2 % B);
  }

  // Multiplication, cell by cell.

  /** After `j` cells of row `i`, with `carry` still to go into the next cell. */
  ghost predicate Multiplying(l: seq<u64>, r: seq<u64>, cells: seq<u64>, i: nat, j: nat, carry: nat)
    requires i <= |l| && j <= |r|
  {
    LimbValue(cells) + carry * Pow(B, i + j)
      == LimbValue(l[..i]) * LimbValue(r) + LimbAt(l, i) * LimbValue(r[..j]) * Pow(B, i)
  }

  lemma {:induction false} NothingMultiplied(l: seq<u64>, r: seq<u64>, cells: seq<u64>)
    requires forall k :: 0 <= k < |cells| ==> cells[k] == 0
    ensures Multiplying(l, r, cells, 0, 0, 0)
  {
    LimbZeros(cells);
    assert l[..0] == [] && r[..0] == [];
  }

  lemma {:induction false} CellSum(v: nat, above: nat, row: nat, xy: nat, c: nat, carry: nat, low: nat, high: nat, q: nat)
    requires v + carry * q == above + row && xy + c + carry == low + B * high
    ensures v + (low - c) * q + high * (B * q) == above + (row + xy * q)
  {
    CarryStep(q, xy, c, carry, low, high);
    assert (low - c) * q == low * q - c * q;
  }

  lemma {:induction false} RowStep(x: nat, r: seq<u64>, i: nat, j: nat)
    requires j < |r|
    ensures x * LimbValue(r[..j + 1]) * Pow(B, i) == x * LimbValue(r[..j]) * Pow(B, i) + x * r[j] * Pow(B, i + j)
  {
    hide Pow, LimbValue;
    LimbStep(r, j);
    PowAdd(B, i, j);
    RowSum(x, LimbValue(r[..j]), r[j], Pow(B, i), Pow(B, j));
  }

  lemma {:induction false} MultiplyCell(l: seq<u64>, r: seq<u64>, cells: seq<u64>, i: nat, j: nat,
      carry: nat, low: u64, high: nat)
    requires i < |l| && j < |r| && i + j < |cells| && Multiplying(l, r, cells, i, j, carry)
    requires l[i] * r[j] + cells[i + j] + carry == low + B * high
    ensures Multiplying(l, r, cells[i + j := low], i, j + 1, high)
  {
    hide Pow, LimbValue;
    var q, x: nat, y: nat := Pow(B, i + j), l[i], r[j];
    LimbUpdate(cells, i + j, low);
    assert Pow(B, i + (j + 1)) == B * q by { PowStep(B, i + j); }
    RowStep(x, r, i, j);
    CellSum(LimbValue(cells), LimbValue(l[..i]) * LimbValue(r), x * LimbValue(r[..j]) * Pow(B, i),
            x * y, cells[i + j], carry, low, high, q);
  }

  lemma {:induction false} RowSum(x: nat, done: nat, y: nat, p: nat, q: nat)
    ensures x * (done + y * q) * p == x * done * p + x * y * (p * q)
  {
    assert x * (done + y * q) == x * done + x * (y * q);
    assert x * (y * q) * p == x * y * (p * q) by {
      MulAssoc(x, y, q);
      MulAssoc(x * y, q, p);
    }
    assert (x * done + x * (y * q)) * p == x * done * p + x * (y * q) * p;
  }

  /** The last carry of a row goes into a cell that is still zero. */
  lemma {:induction false} MultiplyRow(l: seq<u64>, r: seq<u64>, cells: seq<u64>, i: nat, carry: u64)
    requires i < |l| && i + |r| < |cells| && cells[i + |r|] == 0 && Multiplying(l, r, cells, i, |r|, carry)
    ensures Multiplying(l, r, cells[i + |r| := carry], i + 1, 0, 0)
  {
    hide Pow, LimbValue;
    LimbUpdate(cells, i + |r|, carry);
    LimbStep(l, i);
    assert r[..|r|] == r && r[..0] == [];
    assert LimbValue([]) == 0 by { LimbZeros([]); }
    MulAssoc(l[i], LimbValue(r), Pow(B, i));
    MulAssoc(l[i], Pow(B, i), LimbValue(r));
    assert (LimbValue(l[..i]) + l[i] * Pow(B, i)) * LimbValue(r)
        == LimbValue(l[..i]) * LimbValue(r) + l[i] * Pow(B, i) * LimbValue(r);
  }

  lemma {:induction false} MultiplyEnd(l: seq<u64>, r: seq<u64>, cells: seq<u64>)
    requires Multiplying(l, r, cells, |l|, 0, 0)
    ensures LimbValue(cells) == LimbValue(l) * LimbValue(r)
  {
    assert l[..|l|] == l;
  }

  // Long division, bit by bit.

  /** With bits `i` and up of the quotient found: what is left of the top of the numerator. */
  ghost predicate DividingBits(n: nat, d: nat, i: nat, bits: seq<u64>, r: nat)
    ensures DividingBits(n, d, i, bits, r) ==> 0 < d
  {
    && r < d
    && LimbValue(bits) % P2(i) == 0
    && n / P2(i) == LimbValue(bits) / P2(i) * d + r
  }

  lemma {:induction false} DivisionStart(n: nat, d: nat, quotientBits: nat, bits: seq<u64>)
    requires 0 < d && BitLength(d) <= BitLength(n) && quotientBits == BitLength(n) - BitLength(d) + 1
    requires forall k :: 0 <= k < |bits| ==> bits[k] == 0
    ensures DividingBits(n, d, quotientBits, bits, n / P2(quotientBits))
  {
    LimbZeros(bits);
    BitLengthBounds(d);
    assert 0 < n;
    BitLengthBounds(n);
    PowAdd(2, BitLength(d) - 1, quotientBits);
    DivBelow(n, P2(quotientBits), P2(BitLength(d) - 1));
    DivModUnique(0, P2(quotientBits), 0, 0);
  }

  lemma {:induction false} HalvedQuotient(x: nat, i: nat)
    ensures x / P2(i) == 2 * (x / P2(i + 1)) + if BitAt(x, i) then 1 else 0
  {
    PowStep(2, i);
    DivDiv(x, P2(i), 2);
    MulAssoc(P2(i), 2, 1);
  }

  lemma {:induction false} DivisionStep(n: nat, d: nat, i: nat, bits: seq<u64>, r: nat, r': nat)
    requires i / 64 < |bits| && DividingBits(n, d, i + 1, bits, r)
    requires r' == 2 * r + if BitAt(n, i) then 1 else 0
    ensures r' < d ==> DividingBits(n, d, i, bits, r')
    ensures Or(64, P2(i % 64), bits[i / 64]) < B
    ensures d <= r' ==> DividingBits(n, d, i, bits[i / 64 := Or(64, P2(i % 64), bits[i / 64])], r' - d)
  {
    hide Pow, LimbValue;
    var v, p := LimbValue(bits), P2(i);
    var q := v / P2(i + 1);
    assert P2(i + 1) == 2 * p by { PowStep(2, i); }
    HalvedQuotient(n, i);
    assert v == 2 * q * p by { MulAssoc(q, 2, p); }
    DivModUnique(v, p, 2 * q, 0);
    assert n / p == 2 * q * d + r' by { MulAssoc(2, q, d); }
    SetBit(bits, i);
    assert v + p == (2 * q + 1) * p;
    DivModUnique(v + p, p, 2 * q + 1, 0);
    assert (2 * q + 1) * d == 2 * q * d + d;
  }

  /** Setting a bit below which, and at which, everything is still zero adds its power of two. */
  lemma {:induction false} SetBit(bits: seq<u64>, i: nat)
    requires i / 64 < |bits| && LimbValue(bits) % P2(i + 1) == 0
    ensures Or(64, P2(i % 64), bits[i / 64]) < B
    ensures LimbValue(bits[i / 64 := Or(64, P2(i % 64), bits[i / 64])]) == LimbValue(bits) + P2(i)
  {
    hide Pow, LimbValue;
    var w, k := i / 64, i % 64;
    var limb := bits[w];
    LowBits(bits, w, k + 1);
    var m := limb % P2(k + 1);
    assert m == 0 by {
      if m > 0 { MulMono(1, m, Pow(B, w)); }
    }
    assert P2(k) < P2(k + 1) by { PowStrict(2, k, k + 1); }
    assert P2(64) == B by { WordSizes(); }
    OrDisjoint(64, k + 1, P2(k), limb);
    BitwiseBound((a, b) => a || b, 64, P2(k), limb);
    LimbUpdate(bits, w, P2(k) + limb);
    LimbPower(w);
    PowAdd(2, 64 * w, k);
  }

  lemma {:induction false} DivisionEnd(n: nat, d: nat, bits: seq<u64>, r: nat)
    requires 0 < d && DividingBits(n, d, 0, bits, r)
    ensures LimbValue(bits) == n / d && r == n % d
  {
    PowZero(2);
    DivModUnique(n, d, LimbValue(bits), r);
  }

  lemma {:induction false} ShorterMeansLess(n: nat, d: nat)
    requires BitLength(n) < BitLength(d)
    ensures n < d
  {
    if d <= n { BitLengthMono(d, n); }
  }

  // Powers by repeated squaring.

  lemma {:induction false} PowerStart(base: nat, exponent: nat)
    ensures 1 * Pow(base, exponent) == Pow(base, exponent)
    ensures exponent == 0 ==> Pow(base, exponent) == 1
  {
  }

  lemma {:induction false} PowerStep(v: nat, square: nat, rest: nat)
    requires 0 < rest
    ensures rest % 2 == 0 ==> v * Pow(square * square, rest / 2) == v * Pow(square, rest)
    ensures rest % 2 == 1 ==> v * square * Pow(square * square, rest / 2) == v * Pow(square, rest)
    ensures rest == 1 ==> v * square == v * Pow(square, rest)
  {
    hide Pow;
    var h := rest / 2;
    PowMul(square, square, h);
    PowAdd(square, h, h);
    if rest % 2 == 1 {
      PowStep(square, 2 * h);
      MulAssoc(v, square, Pow(square, 2 * h));
    }
    if rest == 1 { PowZero(square); }
  }

  // Decimal chunks of nine digits.

  const CHUNK: u32 := 1_000_000_000

  function ChunkValue(chunks: seq<u32>): nat
  {
    if chunks == [] then 0
    else ChunkValue(chunks[..|chunks| - 1]) + chunks[|chunks| - 1] * Pow(CHUNK, |chunks| - 1)
  }

  lemma {:induction false} ChunkStep(before: nat, after: nat, chunks: seq<u32>, chunk: u32)
    requires after == before / CHUNK && chunk == before % CHUNK
    ensures before * Pow(CHUNK, |chunks|) + ChunkValue(chunks)
         == after * Pow(CHUNK, |chunks| + 1) + ChunkValue(chunks + [chunk])
  {
    hide Pow;
    var p := Pow(CHUNK, |chunks|);
    PowStep(CHUNK, |chunks|);
    assert (chunks + [chunk])[..|chunks|] == chunks;
    assert before == after * CHUNK + chunk;
    assert (after * CHUNK + chunk) * p == after * CHUNK * p + chunk * p;
    MulAssoc(after, CHUNK, p);
  }

  lemma {:induction false} ChunkDigits(chunk: nat)
    requires chunk < CHUNK
    ensures |Decimal(chunk)| <= 9 && Pow(10, 9) == CHUNK
  {
    assert Pow(10, 9) == CHUNK;
    hide Pow;
    var s := Decimal(chunk);
    DecimalValue(chunk);
    if |s| > 9 {
      IsDecimalDigits(s);
      assert chunk != 0;
      ValueLeading(10, s);
      PowMono(10, 9, |s| - 1);
    }
  }

  function Padded(chunk: string): string
    requires |chunk| <= 9
  {
    seq(9 - |chunk|, _ => '0') + chunk
  }

  lemma {:induction false} ChunkAppend(digits: string, chunks: seq<u32>, i: nat)
    requires i < |chunks| && chunks[i] < CHUNK && |Decimal(chunks[i])| <= 9
    requires CanonicalDecimal(digits) && digits[0] != '0'
    ensures CanonicalDecimal(digits + Padded(Decimal(chunks[i])))
    ensures ValueIn(10, digits + Padded(Decimal(chunks[i]))) * Pow(CHUNK, i) + ChunkValue(chunks[..i])
         == ValueIn(10, digits) * Pow(CHUNK, i + 1) + ChunkValue(chunks[..i + 1])
  {
    hide Pow;
    PaddedValue(digits, chunks[i]);
    assert chunks[..i + 1][..i] == chunks[..i];
    PowStep(CHUNK, i);
    ChunkSum(ValueIn(10, digits), chunks[i], CHUNK, Pow(CHUNK, i));
  }

  lemma {:induction false} PaddedValue(digits: string, chunk: nat)
    requires chunk < CHUNK && |Decimal(chunk)| <= 9
    ensures ValueIn(10, digits + Padded(Decimal(chunk))) == ValueIn(10, digits) * CHUNK + chunk
  {
    ChunkDigits(chunk);
    hide Pow;
    var text := Decimal(chunk);
    var zeros := seq(9 - |text|, _ => '0');
    assert ValueIn(10, zeros + text) == chunk by {
      ValueConcat(10, zeros, text);
      ValueZeros(10, zeros);
      DecimalValue(chunk);
    }
    assert |zeros + text| == 9;
    ValueConcat(10, digits, zeros + text);
  }

  lemma {:induction false} ChunkSum(v: nat, chunk: nat, c: nat, p: nat)
    ensures (v * c + chunk) * p == v * (c * p) + chunk * p
  {
    assert (v * c + chunk) * p == v * c * p + chunk * p;
    MulAssoc(v, c, p);
  }

  class BigUint {
    var limbs: seq<u64>

    ghost predicate Valid()
      reads this
    {
      Trimmed(limbs)
    }

    ghost function Value(): nat
      reads this
    {
      LimbValue(limbs)
    }

    constructor (value: u128)
      ensures Valid() && Value() == value
    {
      limbs := [value % B, value / B];
      new;
      assert limbs[..1][..0] == [] && limbs[..2] == limbs;
      LimbStep(limbs, 0);
      LimbStep(limbs, 1);
      assert Pow(B, 1) == B;
      Trim();
    }

    constructor Copy(other: BigUint)
      requires other.Valid()
      ensures Valid() && limbs == other.limbs
    {
      limbs := other.limbs;
    }

    constructor FromLimbs(words: seq<u64>)
      ensures Valid() && Value() == LimbValue(words)
    {
      limbs := words;
      new;
      Trim();
    }

    method Trim()
      modifies this
      ensures Valid() && Value() == old(Value())
    {
      while limbs != [] && limbs[|limbs| - 1] == 0
        invariant Value() == old(Value())
        decreases |limbs|
      {
        limbs := limbs[..|limbs| - 1];
      }
    }

    predicate IsZero()
      requires Valid()
      reads this
      ensures IsZero() <==> Value() == 0
    {
      if limbs != [] then TopLimb(limbs); false else true
    }

    function BitLen(): (r: nat)
      requires Valid()
      reads this
      ensures r == BitLength(Value())
    {
      if limbs == [] then 0
      else
        LimbBitLength(limbs);
        (|limbs| - 1) * 64 + BitLength(limbs[|limbs| - 1])
    }

    predicate Bit(index: nat)
      reads this
      ensures Bit(index) <==> BitAt(Value(), index)
    {
      LimbBit(limbs, index);
      WordSizes();
      assert !BitAt(0, index % 64);
      index / 64 < |limbs| && (limbs[index / 64] / P2(index % 64)) % 2 != 0
    }

    function LowU128(): (r: u128)
      reads this
      ensures r == Value() % B128
    {
      var low, high := LimbAt(limbs, 0), LimbAt(limbs, 1);
      assert high * B + low == Value() % B128 by { LowLimbs(limbs); }
      high * B + low
    }

    /** Whether any of the lowest `count` bits is set. */
    method AnyBelow(count: nat) returns (any: bool)
      ensures any <==> Value() % P2(count) != 0
    {
      var wholeLimbs := if count / 64 < |limbs| then count / 64 else |limbs|;
      for i := 0 to wholeLimbs
        invariant LimbValue(limbs[..i]) == 0
      {
        LimbStep(limbs, i);
        if limbs[i] != 0 {
          LowBitsNonzero(limbs, i, count);
          return true;
        }
      }
      if wholeLimbs == |limbs| {
        assert limbs[..|limbs|] == limbs;
        DivModUnique(0, P2(count), 0, 0);
        return false;
      }
      LowBits(limbs, wholeLimbs, count % 64);
      if count % 64 == 0 { return false; }
      var masked := limbs[wholeLimbs] % P2(count % 64);
      MulMono(if masked == 0 then 0 else 1, masked, Pow(B, wholeLimbs));
      return masked != 0;
    }

    method ShiftLeft(count: nat)
      requires Valid()
      modifies this
      ensures Valid() && Value() == old(Value()) * P2(count)
    {
      if limbs == [] || count == 0 { return; }
      LimbPower(count / 64);
      PowAdd(2, count % 64, 64 * (count / 64));
      MulAssoc(LimbValue(limbs), P2(count % 64), Pow(B, count / 64));
      ShiftLeftLimbs(count / 64, count % 64);
      Trim();
    }

    method ShiftLeftLimbs(limbShift: nat, bitShift: nat)
      requires bitShift < 64
      modifies this
      ensures LimbValue(limbs) == LimbValue(old(limbs)) * P2(bitShift) * Pow(B, limbShift)
    {
      hide Pow, LimbValue, ShiftingLeft;
      var n := |limbs|;
      var shifted: seq<u64> := Zeros(n + limbShift + 1);
      ghost var p := P2(bitShift);
      ShiftLeftStart(limbs, shifted, limbShift, p);
      for i := 0 to n
        invariant limbs == old(limbs) && |shifted| == n + limbShift + 1
        invariant forall k :: i + limbShift < k < |shifted| ==> shifted[k] == 0
        invariant shifted[i + limbShift] < p
        invariant ShiftingLeft(limbs, shifted, i, limbShift, p)
      {
        var at := i + limbShift;
        ShiftedLimb(limbs[i], shifted[at], bitShift);
        var moved: u128 := limbs[i] * P2(bitShift);
        ShiftLeftStep(limbs, shifted, i, limbShift, p);
        shifted := shifted[at := Or(64, shifted[at], moved % B)];
        shifted := shifted[at + 1 := Or(64, shifted[at + 1], moved / B)];
      }
      ShiftLeftEnd(limbs, shifted, limbShift, p);
      limbs := shifted;
    }

    method ShiftRight(count: nat)
      requires Valid()
      modifies this
      ensures Valid() && Value() == old(Value()) / P2(count)
    {
      var limbShift, bitShift := count / 64, count % 64;
      DropBits(limbs, count);
      if limbShift >= |limbs| {
        limbs := [];
        return;
      }
      ShiftRightLimbs(limbShift, bitShift);
      Trim();
    }

    method ShiftRightLimbs(limbShift: nat, bitShift: nat)
      requires limbShift < |limbs| && bitShift < 64
      modifies this
      ensures LimbValue(limbs) == LimbValue(old(limbs)[limbShift..]) / P2(bitShift)
    {
      hide Pow, LimbValue, ShiftingRight;
      ghost var kept := limbs[limbShift..];
      var shifted: seq<u64> := Zeros(|limbs| - limbShift);
      NothingShifted(kept, shifted, P2(bitShift));
      for i := 0 to |shifted|
        invariant limbs == old(limbs) && |shifted| == |kept| && ShiftingRight(kept, shifted, i, P2(bitShift))
      {
        var low, high := limbs[i + limbShift], LimbAt(limbs, i + limbShift + 1);
        ShiftRightStep(kept, shifted, i, bitShift);
        shifted := shifted[i := (high * B + low) / P2(bitShift) % B];
      }
      ShiftRightEnd(kept, shifted, P2(bitShift));
      limbs := shifted;
    }

    /** Keeps only the lowest `count` bits. */
    method KeepLow(count: nat)
      requires Valid()
      modifies this
      ensures Valid() && Value() == old(Value()) % P2(count)
    {
      var keptLimbs := (count + 63) / 64;
      ghost var l, w, k := limbs, count / 64, count % 64;
      if |limbs| <= w { ShortValue(limbs, count); } else { MaskedTop(limbs, w, k); LimbDrop(limbs, w); LimbPower(w); }
      hide Pow, LimbValue;
      if |limbs| > keptLimbs { limbs := limbs[..keptLimbs]; }
      if count % 64 != 0 && |limbs| == keptLimbs {
        var top := |limbs| - 1;
        limbs := limbs[top := limbs[top] % P2(count % 64)];
        assert limbs == l[..w + 1][w := l[w] % P2(k)];
      }
      assert LimbValue(limbs) == LimbValue(l) % P2(count) by {
        if |l| > w && k == 0 { assert limbs == l[..w]; }
      }
      Trim();
    }

    method Add(other: BigUint)
      requires Valid() && other.Valid()
      modifies this
      ensures Valid() && Value() == old(Value()) + old(other.Value())
    {
      var n := if |limbs| < |other.limbs| then |other.limbs| + 1 else |limbs| + 1;
      hide Pow, LimbValue, Carried;
      ghost var l, r := Resized(limbs, n), Resized(other.limbs, n);
      ResizedValue(limbs, n);
      ResizedValue(other.limbs, n);
      limbs := Resized(limbs, n);
      AddLimbs(l, r, other);
      Trim();
    }

    method AddLimbs(ghost l: seq<u64>, ghost r: seq<u64>, other: BigUint)
      requires limbs == l && |l| == |r| > 0 && l[|l| - 1] == r[|r| - 1] == 0
      requires forall k :: 0 <= k < |l| ==> LimbAt(other.limbs, k) == r[k]
      modifies this
      ensures LimbValue(limbs) == LimbValue(l) + LimbValue(r)
    {
      hide Pow, LimbValue, Carried;
      var n := |limbs|;
      var carry: u64 := 0;
      NothingCarried(l, r);
      for i := 0 to n
        invariant |limbs| == n && carry <= 1 && Carried(l, r, limbs, i, carry)
        invariant forall k :: i <= k < n ==> limbs[k] == l[k] && LimbAt(other.limbs, k) == r[k]
      {
        var sum: u128 := limbs[i] + LimbAt(other.limbs, i) + carry;
        var low: u64, high: u64 := sum % B, sum / B;
        AddStep(l, r, limbs, i, carry, low, high);
        limbs, carry := limbs[i := low], high;
      }
      NoCarryOut(l, r, limbs, carry);
    }

    method Subtract(other: BigUint)
      requires Valid() && other.Valid() && other.Value() <= Value()
      modifies this
      ensures Valid() && Value() == old(Value()) - old(other.Value())
    {
      if |limbs| < |other.limbs| { ShorterIsLess(limbs, other.limbs); }
      hide Pow, LimbValue;
      ghost var r := Resized(other.limbs, |limbs|);
      ResizedValue(other.limbs, |limbs|);
      SubtractLimbs(limbs, r, other);
      Trim();
    }

    method SubtractLimbs(ghost l: seq<u64>, ghost r: seq<u64>, other: BigUint)
      requires limbs == l && |l| == |r| && LimbValue(r) <= LimbValue(l)
      requires forall k :: 0 <= k < |l| ==> LimbAt(other.limbs, k) == r[k]
      modifies this
      ensures LimbValue(limbs) == LimbValue(l) - LimbValue(r)
    {
      hide Pow, LimbValue, Borrowed;
      var borrow: u64 := 0;
      NothingCarried(l, r);
      for i := 0 to |limbs|
        invariant |limbs| == |l| && borrow <= 1 && Borrowed(l, r, limbs, i, borrow)
        invariant forall k :: i <= k < |l| ==> limbs[k] == l[k] && LimbAt(other.limbs, k) == r[k]
      {
        var limb, rhs := limbs[i], LimbAt(other.limbs, i);
        var needsBorrow := limb < rhs || (limb == rhs && borrow != 0);
        var low: u64, next: u64 := (limb - rhs - borrow) % B, if needsBorrow then 1 else 0;
        WrappedDifference(limb - rhs - borrow, next);
        SubtractStep(l, r, limbs, i, borrow, low, next);
        limbs, borrow := limbs[i := low], next;
      }
      NoBorrowOut(l, r, limbs, borrow);
    }

    method MultiplyAddSmall(factor: u32, addend: u32)
      requires Valid()
      modifies this
      ensures Valid() && Value() == old(Value()) * factor + addend
    {
      hide Pow, LimbValue;
      var carry := MultiplyLimbs(factor, addend);
      if carry != 0 {
        LimbPush(limbs, carry);
        limbs := limbs + [carry];
      }
      Trim();
    }

    method MultiplyLimbs(factor: u32, addend: u32) returns (carry: u64)
      modifies this
      ensures LimbValue(limbs) + carry * Pow(B, |limbs|) == LimbValue(old(limbs)) * factor + addend
    {
      hide Pow, LimbValue, Scaling;
      ghost var l := limbs;
      carry := addend;
      NothingScaled(l, factor, addend);
      for i := 0 to |limbs|
        invariant |limbs| == |l| && Scaling(l, limbs, i, factor, addend, carry)
        invariant forall k :: i <= k < |l| ==> limbs[k] == l[k]
      {
        CellFits(limbs[i], factor, carry, 0);
        var product: u128 := limbs[i] * factor + carry;
        var low: u64, high: u64 := product % B, product / B;
        ScaleStep(l, limbs, i, factor, addend, carry, low, high);
        limbs, carry := limbs[i := low], high;
      }
      ScaleEnd(l, limbs, factor, addend, carry);
    }

    /** Divides in place, returning the remainder. */
    method DivideSmall(divisor: u32) returns (remainder: u32)
      requires Valid() && divisor != 0
      modifies this
      ensures Valid() && Value() == old(Value()) / divisor && remainder == old(Value()) % divisor
    {
      remainder := DivideLimbs(divisor);
      Trim();
    }

    method DivideLimbs(divisor: u32) returns (rest: u32)
      requires divisor != 0
      modifies this
      ensures LimbValue(limbs) == LimbValue(old(limbs)) / divisor
      ensures rest == LimbValue(old(limbs)) % divisor
    {
      hide Pow, LimbValue, Dividing;
      ghost var l := limbs;
      rest := 0;
      var i: nat := |limbs|;
      NothingDivided(l, divisor);
      while i > 0
        invariant i <= |l| == |limbs| && rest < divisor && Dividing(l, limbs, i, divisor, rest)
        invariant forall k :: 0 <= k < i ==> limbs[k] == l[k]
      {
        DivideStep(l, limbs, i, divisor, rest);
        i := i - 1;
        var current: u128 := rest * B + limbs[i];
        limbs := limbs[i := current / divisor];
        rest := current % divisor;
      }
      DivideEnd(l, limbs, divisor, rest);
    }

    /** Doubles the number and adds a low bit. */
    method ShiftLeftOne(lowBit: bool)
      requires Valid()
      modifies this
      ensures Valid() && Value() == 2 * old(Value()) + if lowBit then 1 else 0
    {
      hide Pow, LimbValue;
      var carry := DoubleLimbs(lowBit);
      if carry != 0 {
        LimbPush(limbs, carry);
        limbs := limbs + [carry];
      }
    }

    method DoubleLimbs(lowBit: bool) returns (carry: u64)
      requires Valid()
      modifies this
      ensures LimbValue(limbs) + carry * Pow(B, |limbs|) == LimbValue(old(limbs)) * 2 + if lowBit then 1 else 0
      ensures carry == 0 ==> Valid()
    {
      hide Pow, LimbValue, Scaling;
      ghost var l := limbs;
      carry := if lowBit then 1 else 0;
      ghost var low := carry;
      NothingScaled(l, 2, low);
      for i := 0 to |limbs|
        invariant |limbs| == |l| && carry <= 1 && Scaling(l, limbs, i, 2, low, carry)
        invariant forall k :: i <= k < |l| ==> limbs[k] == l[k]
        invariant i > 0 && carry == 0 ==> limbs[i - 1] >= l[i - 1]
      {
        DoubledLimb(limbs[i], carry);
        var next: u64, doubled: u64 := limbs[i] / P2(63), Or(64, carry, limbs[i] * 2 % B);
        ScaleStep(l, limbs, i, 2, low, carry, doubled, next);
        limbs, carry := limbs[i := doubled], next;
      }
      ScaleEnd(l, limbs, 2, low, carry);
    }

    /** The schoolbook product. */
    static method Multiply(lhs: BigUint, rhs: BigUint) returns (product: BigUint)
      requires lhs.Valid() && rhs.Valid()
      ensures fresh(product) && product.Valid() && product.Value() == lhs.Value() * rhs.Value()
    {
      var cells: seq<u64> := [];
      if !lhs.IsZero() && !rhs.IsZero() { cells := MultiplyCells(lhs.limbs, rhs.limbs); }
      product := new BigUint.FromLimbs(cells);
    }

    static method MultiplyCells(l: seq<u64>, r: seq<u64>) returns (cells: seq<u64>)
      ensures LimbValue(cells) == LimbValue(l) * LimbValue(r)
    {
      hide Pow, LimbValue, Multiplying;
      cells := Zeros(|l| + |r|);
      NothingMultiplied(l, r, cells);
      for i := 0 to |l|
        invariant |cells| == |l| + |r|
        invariant forall k :: i + |r| <= k < |cells| ==> cells[k] == 0
        invariant Multiplying(l, r, cells, i, 0, 0)
      {
        var carry: u64 := 0;
        for j := 0 to |r|
          invariant |cells| == |l| + |r|
          invariant forall k :: i + |r| <= k < |cells| ==> cells[k] == 0
          invariant Multiplying(l, r, cells, i, j, carry)
        {
          CellFits(l[i], r[j], cells[i + j], carry);
          var cell: u128 := l[i] * r[j] + cells[i + j] + carry;
          var low: u64, high: u64 := cell % B, cell / B;
          MultiplyCell(l, r, cells, i, j, carry, low, high);
          cells, carry := cells[i + j := low], high;
        }
        MultiplyRow(l, r, cells, i, carry);
        cells := cells[i + |r| := carry];
      }
      MultiplyEnd(l, r, cells);
    }

    /** Long division, one bit at a time: returns the quotient and leaves the remainder in
        `numerator`. */
    static method Divide(numerator: BigUint, divisor: BigUint) returns (quotient: BigUint)
      requires numerator.Valid() && divisor.Valid() && divisor.Value() != 0
      modifies numerator
      ensures fresh(quotient) && quotient.Valid() && numerator.Valid()
      ensures quotient.Value() == old(numerator.Value()) / old(divisor.Value())
      ensures numerator.Value() == old(numerator.Value()) % old(divisor.Value())
    {
      ghost var n, d := numerator.Value(), divisor.Value();
      var numeratorBits, divisorBits := numerator.BitLen(), divisor.BitLen();
      if numeratorBits < divisorBits {
        ShorterMeansLess(n, d);
        DivModUnique(n, d, 0, n);
        quotient := new BigUint.FromLimbs([]);
        return;
      }
      // Below `2^quotientBits`, by the bounds on both bit lengths; the other bits start in the remainder.
      var quotientBits := numeratorBits - divisorBits + 1;
      var remainder := new BigUint.Copy(numerator);
      remainder.ShiftRight(quotientBits);
      DivisionStart(n, d, quotientBits, Zeros((quotientBits + 63) / 64));
      var bits := DivideBits(numerator, divisor, quotientBits, remainder);
      quotient := new BigUint.FromLimbs(bits);
      numerator.limbs := remainder.limbs;
    }

    static method DivideBits(numerator: BigUint, divisor: BigUint, quotientBits: nat, remainder: BigUint)
      returns (bits: seq<u64>)
      requires numerator.Valid() && divisor.Valid() && remainder.Valid()
      requires remainder != numerator && remainder != divisor
      requires DividingBits(numerator.Value(), divisor.Value(), quotientBits,
                            Zeros((quotientBits + 63) / 64), remainder.Value())
      modifies remainder
      ensures remainder.Valid()
      ensures LimbValue(bits) == numerator.Value() / divisor.Value()
      ensures remainder.Value() == numerator.Value() % divisor.Value()
    {
      hide Pow, LimbValue, DividingBits;
      ghost var n, d := numerator.Value(), divisor.Value();
      bits := Zeros((quotientBits + 63) / 64);
      var i: nat := quotientBits;
      while i > 0
        invariant i <= quotientBits <= 64 * |bits| && remainder.Valid()
        invariant DividingBits(n, d, i, bits, remainder.Value())
      {
        i := i - 1;
        ghost var r := remainder.Value();
        remainder.ShiftLeftOne(numerator.Bit(i));
        DivisionStep(n, d, i, bits, r, remainder.Value());
        var order := remainder.Compare(divisor);
        if order != Less {
          remainder.Subtract(divisor);
          bits := bits[i / 64 := Or(64, P2(i % 64), bits[i / 64])];
        }
      }
      DivisionEnd(n, d, bits, remainder.Value());
    }

    method Compare(other: BigUint) returns (order: Ordering)
      requires Valid() && other.Valid()
      ensures order == Compared(Value(), other.Value())
    {
      if |limbs| != |other.limbs| {
        if |limbs| < |other.limbs| {
          ShorterIsLess(limbs, other.limbs);
          return Less;
        }
        ShorterIsLess(other.limbs, limbs);
        return Greater;
      }
      var i: nat := |limbs|;
      while i > 0
        invariant i <= |limbs|
        invariant forall k :: i <= k < |limbs| ==> limbs[k] == other.limbs[k]
      {
        i := i - 1;
        if limbs[i] < other.limbs[i] {
          HighestDifference(limbs, other.limbs, i);
          return Less;
        }
        if other.limbs[i] < limbs[i] {
          HighestDifference(other.limbs, limbs, i);
          return Greater;
        }
      }
      assert limbs == other.limbs;
      return Equal;
    }

    static method Power(base: u32, exponent: nat) returns (result: BigUint)
      ensures fresh(result) && result.Valid() && result.Value() == Pow(base, exponent)
    {
      hide Pow;
      result := new BigUint(1);
      var square := new BigUint(base);
      var rest := exponent;
      PowerStart(base, exponent);
      while rest != 0
        invariant fresh(result) && fresh(square) && result.Valid() && square.Valid()
        invariant rest != 0 ==> result.Value() * Pow(square.Value(), rest) == Pow(base, exponent)
        invariant rest == 0 ==> result.Value() == Pow(base, exponent)
      {
        PowerStep(result.Value(), square.Value(), rest);
        if rest % 2 != 0 { result := Multiply(result, square); }
        rest := rest / 2;
        if rest != 0 { square := Multiply(square, square); }
      }
    }

    method ToDecimal() returns (digits: string)
      requires Valid()
      ensures digits == Decimal(Value())
    {
      hide Pow;
      if IsZero() {
        return "0";
      }
      var chunks := Chunks();
      var i := |chunks| - 1;
      digits := Decimal(chunks[i]);
      DecimalValue(chunks[i]);
      assert chunks[..i + 1] == chunks;
      while i > 0
        invariant 0 <= i < |chunks|
        invariant CanonicalDecimal(digits) && digits[0] != '0'
        invariant ValueIn(10, digits) * Pow(CHUNK, i) + ChunkValue(chunks[..i]) == Value()
      {
        i := i - 1;
        var chunk := Decimal(chunks[i]);
        ChunkDigits(chunks[i]);
        ChunkAppend(digits, chunks, i);
        digits := digits + Padded(chunk);
      }
      PowZero(CHUNK);
      assert chunks[..0] == [];
      DecimalValue(Value());
      CanonicalDecimalUnique(digits, Decimal(Value()));
    }

    /** The number in base `10^9`, least significant chunk first, with no zero chunk on top. */
    method Chunks() returns (chunks: seq<u32>)
      requires Valid() && Value() != 0
      ensures forall k :: 0 <= k < |chunks| ==> chunks[k] < CHUNK
      ensures ChunkValue(chunks) == Value() && chunks != [] && chunks[|chunks| - 1] != 0
    {
      hide Pow;
      var rest := new BigUint.Copy(this);
      chunks := [];
      PowZero(CHUNK);
      while !rest.IsZero()
        invariant fresh(rest) && rest.Valid()
        invariant forall k :: 0 <= k < |chunks| ==> chunks[k] < CHUNK
        invariant Value() == rest.Value() * Pow(CHUNK, |chunks|) + ChunkValue(chunks)
        invariant rest.IsZero() ==> chunks != [] && chunks[|chunks| - 1] != 0
        decreases rest.Value()
      {
        ghost var before := rest.Value();
        var chunk := rest.DivideSmall(CHUNK);
        ChunkStep(before, rest.Value(), chunks, chunk);
        chunks := chunks + [chunk];
      }
    }
  }
}
