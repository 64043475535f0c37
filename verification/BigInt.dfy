/** Integers of any size as a sign and a magnitude, and their two's complement words of any width. */
module BigInts {
  import opened Powers
  import opened Limbs
  import opened Digits
  import opened BigUints

  // ----- Sign and magnitude -------------------------------------------------------------------------

  datatype BigInt = BigInt(negative: bool, magnitude: nat)

  /** Zero has one form. */
  predicate Normal(v: BigInt)
  {
    v.negative ==> v.magnitude != 0
  }

  function Make(negative: bool, magnitude: nat): (v: BigInt)
    ensures Normal(v)
  {
    BigInt(negative && magnitude != 0, magnitude)
  }

  function Int(v: BigInt): int
  {
    var m: int := v.magnitude;
    if v.negative then -m else m
  }

  /** Numbers in normal form are equal as values exactly when they are equal as integers. */
  lemma {:induction false} IntUnique(v: BigInt, w: BigInt)
    requires Normal(v) && Normal(w)
    ensures v == w <==> Int(v) == Int(w)
  {
  }

  // ----- Arithmetic -------------------------------------------------------------------------------

  function AddMagnitudes(negative: bool, l: nat, r: nat): BigInt
  {
    Make(negative, l + r)
  }

  function SubtractMagnitudes(lNegative: bool, l: nat, r: nat): BigInt
  {
    if l >= r then Make(lNegative, l - r) else Make(!lNegative, r - l)
  }

  function Negated(v: BigInt): BigInt
  {
    Make(!v.negative, v.magnitude)
  }

  function Plus(l: BigInt, r: BigInt): BigInt
  {
    if l.negative == r.negative then AddMagnitudes(l.negative, l.magnitude, r.magnitude)
    else SubtractMagnitudes(l.negative, l.magnitude, r.magnitude)
  }

  function Minus(l: BigInt, r: BigInt): BigInt
  {
    Plus(l, Negated(r))
  }

  function Complement(v: BigInt): BigInt
  {
    Minus(Negated(v), Make(false, 1))
  }

  function Product(l: BigInt, r: BigInt): BigInt
  {
    MulMono(0, l.magnitude, r.magnitude);
    Make(l.negative != r.negative, l.magnitude * r.magnitude)
  }

  function Quotient(l: BigInt, r: BigInt): BigInt
    requires r.magnitude != 0
  {
    DivNonnegative(l.magnitude, r.magnitude);
    Make(l.negative != r.negative, l.magnitude / r.magnitude)
  }

  function Remainder(l: BigInt, r: BigInt): BigInt
    requires r.magnitude != 0
  {
    Make(l.negative, l.magnitude % r.magnitude)
  }

  function ShiftedLeft(v: BigInt, amount: nat): BigInt
  {
    MulMono(0, v.magnitude, P2(amount));
    Make(v.negative, v.magnitude * P2(amount))
  }

  function ShiftedRight(v: BigInt, amount: nat): BigInt
  {
    hide P2, Pow;
    DivNonnegative(v.magnitude, P2(amount));
    var shifted := v.magnitude / P2(amount);
    Make(v.negative, if v.negative && v.magnitude % P2(amount) != 0 then shifted + 1 else shifted)
  }

  /** Sums, differences, products and complements are those of the integers. */
  lemma {:induction false} ArithmeticCorrect(l: BigInt, r: BigInt)
    ensures Int(Plus(l, r)) == Int(l) + Int(r) && Int(Minus(l, r)) == Int(l) - Int(r)
    ensures Int(Product(l, r)) == Int(l) * Int(r)
    ensures Int(Negated(l)) == -Int(l) && Int(Complement(l)) == -Int(l) - 1
  {
    var a: int, b: int := l.magnitude, r.magnitude;
    assert (-a) * b == -(a * b) && a * (-b) == -(a * b) && (-a) * (-b) == a * b;
  }

  /** Division truncates toward zero, and the remainder has the sign of the dividend. */
  lemma {:induction false} DivisionCorrect(l: BigInt, r: BigInt)
    requires r.magnitude != 0
    ensures Int(l) == Int(Quotient(l, r)) * Int(r) + Int(Remainder(l, r))
    ensures Remainder(l, r).magnitude < r.magnitude
    ensures Int(Remainder(l, r)) != 0 ==> (Int(Remainder(l, r)) < 0 <==> Int(l) < 0)
  {
    var a: int, b: int := l.magnitude, r.magnitude;
    var q, rest := a / b, a % b;
    assert a == q * b + rest;
    assert (-q) * b == -(q * b) && q * (-b) == -(q * b) && (-q) * (-b) == q * b;
  }

  /** A right shift is division by a power of two, rounded down for negative numbers too. */
  lemma {:induction false} ShiftsCorrect(v: BigInt, amount: nat)
    ensures Int(ShiftedLeft(v, amount)) == Int(v) * P2(amount)
    ensures Int(ShiftedRight(v, amount)) == Int(v) / P2(amount)
  {
    hide P2, Pow;
    var m: int, p: int := v.magnitude, P2(amount);
    var q, r := m / p, m % p;
    assert m == q * p + r;
    assert (-m) * p == -(m * p);
    if v.negative {
      if r == 0 {
        assert -m == (-q) * p + 0;
        DivModUnique(-m, p, -q, 0);
      } else {
        assert -m == (-q - 1) * p + (p - r);
        DivModUnique(-m, p, -q - 1, p - r);
      }
    }
  }

  function Compare(l: BigInt, r: BigInt): Ordering
  {
    if l.negative != r.negative then if l.negative then Less else Greater
    else
      var byMagnitude := Compared(l.magnitude, r.magnitude);
      if l.negative then Reversed(byMagnitude) else byMagnitude
  }

  function Reversed(order: Ordering): Ordering
  {
    match order
    case Less => Greater
    case Equal => Equal
    case Greater => Less
  }

  lemma {:induction false} CompareCorrect(l: BigInt, r: BigInt)
    requires Normal(l) && Normal(r)
    ensures Compare(l, r) == Compared(Int(l), Int(r))
  {
  }

  // ----- Widths -----------------------------------------------------------------------------------

  /** The bits a two's complement form needs, its sign included: a negative number needs one more
      than the number one above its negation. */
  function SignedBits(v: BigInt): (n: nat)
    requires Normal(v)
  {
    if !v.negative then BitLength(v.magnitude) + 1 else BitLength(v.magnitude - 1) + 1
  }

  predicate Fits(v: BigInt, bits: nat, signed: bool)
    requires Normal(v)
  {
    if signed then SignedBits(v) <= bits else !v.negative && BitLength(v.magnitude) <= bits
  }

  /** The integers a width can hold. */
  predicate InRange(x: int, bits: nat, signed: bool)
  {
    if signed then 0 < bits && 0 - P2(bits - 1) <= x < P2(bits - 1) else 0 <= x < P2(bits)
  }

  lemma {:induction false} FitsCorrect(v: BigInt, bits: nat, signed: bool)
    requires Normal(v)
    ensures Fits(v, bits, signed) <==> InRange(Int(v), bits, signed)
  {
    hide P2, Pow, BitLength;
    if signed {
      if bits > 0 { BitLengthAtMost(if v.negative then v.magnitude - 1 else v.magnitude, bits - 1); }
    } else {
      BitLengthAtMost(v.magnitude, bits);
    }
  }

  // ----- Two's complement -------------------------------------------------------------------------

  /** The low `width` bits read as an unsigned or a two's complement number. */
  function Reinterpret(y: nat, width: nat, signed: bool): int
  {
    if signed && width != 0 && BitAt(y, width - 1) then y - P2(width) else y
  }

  lemma {:induction false} TopBit(y: nat, width: nat)
    requires 0 < width && y < P2(width)
    ensures BitAt(y, width - 1) <==> P2(width - 1) <= y
  {
    hide P2, Pow;
    P2Step(width - 1);
    var h := P2(width - 1);
    if y < h { DivModUnique(y, h, 0, y); } else { DivModUnique(y, h, 1, y - h); }
  }

  /** Wrapping a number to a width and reading it back gives it again exactly when it fits; reading no
      bits gives zero, which as a signed number does not fit them. */
  lemma {:induction false} WrapRoundTrip(x: int, width: nat, signed: bool)
    ensures Reinterpret(x % P2(width), width, signed) == x <==>
            InRange(x, width, signed) || (signed && width == 0 && x == 0)
  {
    hide P2, Pow, BitAt;
    var p := P2(width);
    var y := x % p;
    if signed && width != 0 {
      P2Step(width - 1);
      TopBit(y, width);
      if 0 - P2(width - 1) <= x < 0 { DivModUnique(x, p, -1, x + p); }
      if 0 <= x < P2(width - 1) { DivModUnique(x, p, 0, x); }
    } else if signed {
      P2Zero();
      assert x % 1 == 0;
    } else {
      if 0 <= x < p { DivModUnique(x, p, 0, x); }
    }
  }

  /** The corner at width zero: zero comes back although it does not fit. */
  lemma {:induction false} NothingInNoBits()
    ensures !Fits(Make(false, 0), 0, true) && Reinterpret(0 % P2(0), 0, true) == 0
  {
    P2Zero();
  }

  // ----- Words --------------------------------------------------------------------------------------

  function WordCount(width: nat): nat
  {
    (width + 63) / 64
  }

  /** The limbs of a magnitude, lowest first, without zeros on top. */
  /** The fewest words with room for the width. */
  lemma {:induction false} WordCountLeast(width: nat, count: nat)
    ensures WordCount(width) <= count <==> width <= 64 * count
  {
  }

  function LimbsOf(n: nat): (s: seq<u64>)
  {
    if n == 0 then [] else [n % B] + LimbsOf(n / B)
  }

  lemma {:induction false} LimbsOfValue(n: nat)
    ensures LimbValue(LimbsOf(n)) == n && Trimmed(LimbsOf(n))
  {
    hide LimbValue;
    if n != 0 {
      LimbsOfValue(n / B);
      LimbFirst(LimbsOf(n));
      assert LimbsOf(n)[1..] == LimbsOf(n / B);
      assert n == n % B + B * (n / B);
      if n / B == 0 { EmptyLimbs(); } else { NonemptyLimbs(n / B); }
    } else {
      EmptyLimbs();
    }
  }

  lemma {:induction false} EmptyLimbs()
    ensures LimbValue([]) == 0 && LimbsOf(0) == []
  {
  }

  lemma {:induction false} NonemptyLimbs(n: nat)
    requires n != 0
    ensures LimbsOf(n) != []
  {
  }

  /** A vector cut or padded with zeros to a length. */
  function Resized(s: seq<u64>, count: nat): (r: seq<u64>)
    ensures |r| == count
  {
    seq(count, i requires 0 <= i => LimbAt(s, i))
  }

  lemma {:induction false} ResizedValue(s: seq<u64>, count: nat)
    ensures LimbValue(Resized(s, count)) == LimbValue(s) % Pow(B, count)
  {
    hide LimbValue, Pow;
    var r := Resized(s, count);
    LimbBound(r);
    if |s| <= count {
      LimbPad(r, |s|);
      assert r[..|s|] == s;
      DivModUnique(LimbValue(s), Pow(B, count), 0, LimbValue(s));
    } else {
      LimbDrop(s, count);
      assert s[..count] == r;
    }
  }

  /** What is left is the remainder by `2^width`. */
  method MaskToWidth(words: array<u64>, width: nat)
    requires words.Length == WordCount(width)
    modifies words
    ensures LimbValue(words[..]) == LimbValue(old(words[..])) % P2(width)
  {
    hide P2, Pow, LimbValue;
    ghost var was := words[..];
    var last := words.Length - 1;
    if width % 64 != 0 && words.Length != 0 {
      SmallWord(width % 64);
      words[last] := words[last] % P2(width % 64);
    }
    MaskedValue(was, words[..], width);
  }

  lemma {:induction false} SmallWord(k: nat)
    requires k < 64
    ensures 0 < P2(k) < B
  {
    hide P2, Pow;
    WordSizes();
    P2Strict(k, 64);
  }

  lemma {:induction false} MaskedValue(was: seq<u64>, now: seq<u64>, width: nat)
    requires |was| == WordCount(width) == |now|
    requires width % 64 == 0 ==> now == was
    requires width % 64 != 0 ==> now == was[|was| - 1 := was[|was| - 1] % P2(width % 64)]
    ensures LimbValue(now) == LimbValue(was) % P2(width)
  {
    hide P2, Pow, LimbValue;
    if width % 64 == 0 {
      assert 64 * |was| == width;
      LimbPower(|was|);
      LimbBound(was);
      DivModUnique(LimbValue(was), P2(width), 0, LimbValue(was));
    } else {
      TopMasked(was, now, |was| - 1, width % 64);
    }
  }

  lemma {:induction false} TopMasked(was: seq<u64>, now: seq<u64>, last: nat, k: nat)
    requires |was| == last + 1 && k < 64 && 0 <= was[last] % P2(k) < B && now == was[last := was[last] % P2(k)]
    ensures LimbValue(now) == LimbValue(was) % P2(64 * last + k)
  {
    hide P2, Pow, LimbValue;
    LowBits(was, last, k);
    LimbStep(now, last);
    assert now[..last + 1] == now && now[..last] == was[..last];
  }

  /** Complements the words and adds one, so that old and new value sum to a power of two, or to zero. */
  method NegateWords(words: array<u64>)
    modifies words
    ensures LimbValue(words[..]) == (0 - LimbValue(old(words[..]))) % Pow(B, words.Length)
  {
    hide Pow, LimbValue;
    ghost var was := words[..];
    var carry := true;
    EmptyLimbs();
    PowZero(B);
    assert words[..0] == [] == was[..0];
    for i := 0 to words.Length
      invariant forall k :: i <= k < words.Length ==> words[k] == was[k]
      invariant LimbValue(words[..i]) + (if carry then Pow(B, i) else 0) == Pow(B, i) - LimbValue(was[..i])
    {
      ghost var before := words[..];
      var word := B - 1 - words[i];
      if carry {
        word := (word + 1) % B;
        carry := word == 0;
        words[i] := word;
        NegateStep(was, before, words[..], i, true, carry);
      } else {
        words[i] := word;
        NegateStep(was, before, words[..], i, false, false);
      }
    }
    assert words[..words.Length] == words[..] && was[..words.Length] == was;
    NegatedValue(was, words[..], carry);
  }

  lemma {:induction false} NegateStep(was: seq<u64>, before: seq<u64>, now: seq<u64>, i: nat, carry: bool, carry': bool)
    requires i < |was| == |before| && was[i] == before[i]
    requires LimbValue(before[..i]) + (if carry then Pow(B, i) else 0) == Pow(B, i) - LimbValue(was[..i])
    requires |now| == |before| && now == before[i := now[i]] && carry' == (carry && now[i] == 0)
    requires now[i] == if carry then (B - was[i]) % B else B - 1 - was[i]
    ensures LimbValue(now[..i + 1]) + (if carry' then Pow(B, i + 1) else 0) == Pow(B, i + 1) - LimbValue(was[..i + 1])
  {
    hide Pow, LimbValue;
    LimbStep(now, i);
    LimbStep(was, i);
    assert now[..i] == before[..i];
    PowStep(B, i);
    var p := Pow(B, i);
    NegateLimb(p, was[i], now[i], carry, carry');
  }

  lemma {:induction false} NegateLimb(p: int, w: u64, n: u64, carry: bool, carry': bool)
    requires n == (if carry then (B - w) % B else B - 1 - w) && carry' == (carry && n == 0)
    ensures n * p + (if carry' then B * p else 0) == (if carry then p else 0) + B * p - w * p - p
  {
    var word := B - 1 - w;
    assert n + (if carry' then B else 0) == word + if carry then 1 else 0;
  }

  lemma {:induction false} NegatedValue(was: seq<u64>, now: seq<u64>, carry: bool)
    requires |was| == |now|
    requires LimbValue(now) + (if carry then Pow(B, |was|) else 0) == Pow(B, |was|) - LimbValue(was)
    ensures LimbValue(now) == (0 - LimbValue(was)) % Pow(B, |was|)
  {
    hide Pow, LimbValue;
    LimbBound(was);
    LimbBound(now);
    var x: int, p := LimbValue(was), Pow(B, |was|);
    if x == 0 {
      DivModUnique(-x, p, 0, 0);
    } else {
      DivModUnique(-x, p, -1, p - x);
    }
  }

  /** The two's complement words of a number, wrapped to a width. */
  method ToWords(v: BigInt, width: nat) returns (words: array<u64>)
    ensures fresh(words) && words.Length == WordCount(width)
    ensures LimbValue(words[..]) == Int(v) % P2(width)
  {
    hide P2, Pow, LimbValue, LimbsOf;
    var count := WordCount(width);
    var resized := Resized(LimbsOf(v.magnitude), count);
    words := new u64[count](i requires 0 <= i < count => resized[i]);
    assert words[..] == resized;
    LimbsOfValue(v.magnitude);
    ResizedValue(LimbsOf(v.magnitude), count);
    if v.negative { NegateWords(words); }
    WordsWrap(v, width, LimbValue(words[..]));
    MaskToWidth(words, width);
  }

  lemma {:induction false} WordsWrap(v: BigInt, width: nat, x: nat)
    requires x == var m: int := v.magnitude % Pow(B, WordCount(width)); if v.negative then -m % Pow(B, WordCount(width)) else m
    ensures x % P2(width) == Int(v) % P2(width)
  {
    hide P2, Pow;
    var count := WordCount(width);
    LimbPower(count);
    P2Add(width, 64 * count - width);
    var b, p, c := Pow(B, count), P2(width), P2(64 * count - width);
    var m: int := v.magnitude;
    ModMod(m, b, p, c);
    if v.negative {
      ModMod(-(m % b), b, p, c);
      NegateMod(m, b);
      ModMod(-m, b, p, c);
    }
  }

  /** Wrapping to a multiple first changes nothing. */
  lemma {:induction false} ModMod(x: int, b: nat, p: nat, c: nat)
    requires 0 < b == p * c && 0 < p
    ensures x % b % p == x % p
  {
    var q, r := x / b, x % b;
    var q2, r2 := r / p, r % p;
    assert x == q * b + r && r == q2 * p + r2;
    assert x == (q * c + q2) * p + r2 by {
      assert q * (p * c) == q * c * p;
    }
    DivModUnique(x, p, q * c + q2, r2);
  }

  lemma {:induction false} NegateMod(m: int, b: nat)
    requires 0 < b
    ensures -(m % b) % b == -m % b
  {
    var q, r := m / b, m % b;
    var q2, r2 := (-r) / b, (-r) % b;
    assert m == q * b + r && -r == q2 * b + r2;
    assert -m == (q2 - q) * b + r2 by {
      assert (q2 - q) * b == q2 * b - q * b;
    }
    DivModUnique(-m, b, q2 - q, r2);
  }

  /** Reads words of any number back as a number of the given width. */
  method FromWords(words: seq<u64>, width: nat, signed: bool) returns (v: BigInt)
    ensures Normal(v) && Int(v) == Reinterpret(LimbValue(words) % P2(width), width, signed)
  {
    hide P2, Pow, LimbValue, BitAt;
    var count := WordCount(width);
    var resized := Resized(words, count);
    var value := new u64[count](i requires 0 <= i < count => resized[i]);
    assert value[..] == resized;
    MaskToWidth(value, width);
    ghost var y := LimbValue(value[..]);
    KeptWords(words, width, y);
    var negative := signed && width != 0 && BitAt(value[count - 1], (width - 1) % 64);
    if signed && width != 0 { LimbBit(value[..], width - 1); }
    if negative {
      TopWord(y, width);
      NegateWords(value);
      MaskToWidth(value, width);
      NegatedBack(y, width, LimbValue(value[..]));
    }
    v := Make(negative, LimbValue(value[..]));
  }

  lemma {:induction false} KeptWords(words: seq<u64>, width: nat, y: nat)
    requires y == LimbValue(Resized(words, WordCount(width))) % P2(width)
    ensures y == LimbValue(words) % P2(width) && y < P2(width)
  {
    hide P2, Pow, LimbValue;
    var count := WordCount(width);
    ResizedValue(words, count);
    LimbPower(count);
    P2Add(width, 64 * count - width);
    ModMod(LimbValue(words), Pow(B, count), P2(width), P2(64 * count - width));
  }

  lemma {:induction false} TopWord(y: nat, width: nat)
    requires 0 < width && y < P2(width) && BitAt(y, width - 1)
    ensures 0 < y
  {
    hide P2, Pow;
    TopBit(y, width);
  }

  lemma {:induction false} NegatedBack(y: nat, width: nat, x: nat)
    requires 0 < y < P2(width) && x == (0 - y) % Pow(B, WordCount(width)) % P2(width)
    ensures x == P2(width) - y
  {
    hide P2, Pow;
    var count := WordCount(width);
    LimbPower(count);
    P2Add(width, 64 * count - width);
    ModMod(0 - y, Pow(B, count), P2(width), P2(64 * count - width));
    DivModUnique(0 - y, P2(width), -1, P2(width) - y);
  }

  /** Words carry any number that fits their width there and back, and no other. */
  method ThroughWords(v: BigInt, width: nat, signed: bool) returns (r: BigInt)
    requires Normal(v)
    ensures r == v <==> Fits(v, width, signed) || (signed && width == 0 && Int(v) == 0)
  {
    hide P2, Pow, LimbValue, BitAt;
    var words := ToWords(v, width);
    r := FromWords(words[..], width, signed);
    ModMod(Int(v), P2(width), P2(width), 1);
    WrapRoundTrip(Int(v), width, signed);
    FitsCorrect(v, width, signed);
    IntUnique(r, v);
  }

  // ----- Bitwise operators --------------------------------------------------------------------------

  /** Wrapping keeps the bits below the width. */
  lemma {:induction false} ModBit(x: int, w: nat, i: nat)
    requires i < w
    ensures BitAt(x % P2(w), i) == BitAt(x, i)
  {
    hide P2, Pow;
    P2Add(i, w - i);
    P2Step(w - i - 1);
    WrappedBit(x, P2(i), P2(w - i - 1), P2(w));
  }

  lemma {:induction false} WrappedBit(x: int, p: nat, c: nat, w: nat)
    requires 0 < p && 0 < c && w == p * (2 * c)
    ensures x % w / p % 2 == x / p % 2
  {
    var q, r := x / w, x % w;
    var f, g := r / p, r % p;
    assert x == q * w + r && r == f * p + g;
    assert x == (q * (2 * c) + f) * p + g by {
      assert q * (p * (2 * c)) == q * (2 * c) * p;
    }
    DivModUnique(x, p, q * (2 * c) + f, g);
    EvenPlus(q * c, f);
    assert q * (2 * c) == 2 * (q * c);
  }

  lemma {:induction false} EvenPlus(a: int, f: int)
    ensures (2 * a + f) % 2 == f % 2
  {
  }

  /** From some bit on, a number has only its sign. */
  lemma {:induction false} SignBits(x: int, k: nat, i: nat)
    requires 0 - P2(k) <= x < P2(k) && k <= i
    ensures BitAt(x, i) <==> x < 0
  {
    hide P2, Pow;
    P2Mono(k, i);
    if x < 0 { DivModUnique(x, P2(i), -1, x + P2(i)); } else { DivModUnique(x, P2(i), 0, x); }
  }

  /** An integer is determined by its bits. */
  lemma {:induction false} BitsUnique(x: int, y: int)
    requires forall i: nat :: BitAt(x, i) == BitAt(y, i)
    ensures x == y
  {
    hide P2, Pow, BitAt;
    var k := EnoughBits(x, y);
    SameLowBits(x, y, k + 1);
    WrapRoundTrip(x, k + 1, true);
    WrapRoundTrip(y, k + 1, true);
  }

  lemma {:induction false} EnoughBits(x: int, y: int) returns (k: nat)
    ensures 0 - P2(k) <= x < P2(k) && 0 - P2(k) <= y < P2(k)
  {
    hide P2, Pow, BitLength;
    var m: nat := (if x < 0 then -x else x) + (if y < 0 then -y else y);
    k := BitLength(m);
    BitLengthAtMost(m, k);
  }

  lemma {:induction false} SameLowBits(x: int, y: int, n: nat)
    requires forall i: nat :: BitAt(x, i) == BitAt(y, i)
    ensures x % P2(n) == y % P2(n)
  {
    hide P2, Pow, BitAt;
    if n == 0 {
      P2Zero();
      assert x % 1 == y % 1;
    } else {
      SameLowBits(x, y, n - 1);
      LowBitsStep(x, n - 1);
      LowBitsStep(y, n - 1);
    }
  }

  lemma {:induction false} LowBitsStep(x: int, n: nat)
    ensures x % P2(n + 1) == x % P2(n) + if BitAt(x, n) then P2(n) else 0
  {
    hide P2, Pow;
    P2Step(n);
    var p := P2(n);
    var q, r := x / p, x % p;
    assert x == q * p + r;
    assert q == 2 * (q / 2) + q % 2;
    assert x == q / 2 * (2 * p) + (q % 2 * p + r);
    DivModUnique(x, 2 * p, q / 2, q % 2 * p + r);
  }

  method CombineWords(l: array<u64>, r: array<u64>, op: (bool, bool) -> bool) returns (out: array<u64>)
    requires l.Length == r.Length
    ensures fresh(out) && out.Length == l.Length
    ensures forall k :: 0 <= k < out.Length ==> out[k] == Bitwise(op, 64, l[k], r[k])
  {
    hide P2, Pow, Bitwise;
    out := new u64[l.Length];
    WordSizes();
    for i := 0 to l.Length
      invariant forall k :: 0 <= k < i ==> out[k] == Bitwise(op, 64, l[k], r[k])
    {
      BitwiseBound(op, 64, l[i], r[i]);
      out[i] := Bitwise(op, 64, l[i], r[i]);
    }
  }

  /** Word by word, with one bit more than either operand needs for its sign. */
  method BitwiseOf(lhs: BigInt, rhs: BigInt, op: (bool, bool) -> bool) returns (v: BigInt)
    requires Normal(lhs) && Normal(rhs)
    ensures Normal(v)
    ensures forall i: nat :: BitAt(Int(v), i) == op(BitAt(Int(lhs), i), BitAt(Int(rhs), i))
  {
    hide P2, Pow, LimbValue, BitAt, BitLength, Bitwise, Int, SignedBits, Reinterpret, WordCount;
    var width := (if SignedBits(lhs) >= SignedBits(rhs) then SignedBits(lhs) else SignedBits(rhs)) + 1;
    var l := ToWords(lhs, width);
    var r := ToWords(rhs, width);
    var out := CombineWords(l, r, op);
    ghost var lw, rw, words := l[..], r[..], out[..];
    MaskToWidth(out, width);
    v := FromWords(out[..], width, true);
    ModMod(LimbValue(words), P2(width), P2(width), 1);
    forall i: nat
      ensures BitAt(Int(v), i) == op(BitAt(Int(lhs), i), BitAt(Int(rhs), i))
    {
      BitOfResult(lhs, rhs, op, width, lw, rw, words, v, i);
    }
  }

  lemma {:induction false} BitOfResult(lhs: BigInt, rhs: BigInt, op: (bool, bool) -> bool, width: nat,
      l: seq<u64>, r: seq<u64>, out: seq<u64>, v: BigInt, i: nat)
    requires Normal(lhs) && Normal(rhs) && SignedBits(lhs) < width && SignedBits(rhs) < width
    requires |l| == |r| == |out| == WordCount(width)
    requires LimbValue(l) == Int(lhs) % P2(width) && LimbValue(r) == Int(rhs) % P2(width)
    requires forall k :: 0 <= k < |out| ==> out[k] == Bitwise(op, 64, l[k], r[k])
    requires Int(v) == Reinterpret(LimbValue(out) % P2(width), width, true)
    ensures BitAt(Int(v), i) == op(BitAt(Int(lhs), i), BitAt(Int(rhs), i))
  {
    hide P2, Pow, LimbValue, BitAt, BitLength, Bitwise, SignedBits;
    var k := if i < width then i else width - 1;
    ResultBit(LimbValue(out) % P2(width), width, Int(v), i, k);
    ModBit(LimbValue(out), width, k);
    WordBit(op, l, r, out, k);
    ModBit(Int(lhs), width, k);
    ModBit(Int(rhs), width, k);
    OperandBit(lhs, width, i, k);
    OperandBit(rhs, width, i, k);
  }

  lemma {:induction false} WordBit(op: (bool, bool) -> bool, l: seq<u64>, r: seq<u64>, out: seq<u64>, k: nat)
    requires |l| == |r| == |out| && k < 64 * |out|
    requires forall i :: 0 <= i < |out| ==> out[i] == Bitwise(op, 64, l[i], r[i])
    ensures BitAt(LimbValue(out), k) == op(BitAt(LimbValue(l), k), BitAt(LimbValue(r), k))
  {
    hide P2, Pow, LimbValue, BitAt, Bitwise;
    LimbBit(l, k);
    LimbBit(r, k);
    LimbBit(out, k);
    BitwiseBit(op, 64, l[k / 64], r[k / 64], k % 64);
  }

  /** Above the width a result repeats its top bit. */
  lemma {:induction false} ResultBit(y: nat, width: nat, x: int, i: nat, k: nat)
    requires 0 < width && y < P2(width) && x == Reinterpret(y, width, true) && k == if i < width then i else width - 1
    ensures BitAt(x, i) == BitAt(y, k)
  {
    hide P2, Pow, BitAt;
    TopBit(y, width);
    P2Step(width - 1);
    if i < width {
      ModBit(x, width, i);
      WrapsTo(x, y, width);
    } else {
      SignBits(x, width - 1, i);
    }
  }

  lemma {:induction false} WrapsTo(x: int, y: nat, width: nat)
    requires y < P2(width) && (x == y || x == y - P2(width))
    ensures x % P2(width) == y
  {
    hide P2, Pow;
    if x == y { DivModUnique(x, P2(width), 0, y); } else { DivModUnique(x, P2(width), -1, y); }
  }

  /** So does an operand, which has fewer bits than the width. */
  lemma {:induction false} OperandBit(v: BigInt, width: nat, i: nat, k: nat)
    requires Normal(v) && SignedBits(v) < width && k == if i < width then i else width - 1
    ensures BitAt(Int(v), i) == BitAt(Int(v), k)
  {
    hide P2, Pow, BitAt, BitLength;
    if i >= width {
      FitsCorrect(v, SignedBits(v), true);
      SignBits(Int(v), SignedBits(v) - 1, i);
      SignBits(Int(v), SignedBits(v) - 1, k);
    }
  }

  // ----- Conversions --------------------------------------------------------------------------------

  /** The machine integer of the same value, when there is one. */
  function ToI128(v: BigInt): Option<int>
    requires Normal(v)
  {
    if !Fits(v, 128, true) then None
    else
      var low := v.magnitude % B128;
      Some(Reinterpret(if v.negative then (B128 - low) % B128 else low, 128, true))
  }

  function ToU128(v: BigInt): Option<nat>
    requires Normal(v)
  {
    if !Fits(v, 128, false) then None else Some(v.magnitude % B128)
  }

  lemma {:induction false} MachineIntegers(v: BigInt)
    requires Normal(v)
    ensures ToI128(v) == if InRange(Int(v), 128, true) then Some(Int(v)) else None
    ensures ToU128(v).Some? <==> InRange(Int(v), 128, false)
    ensures ToU128(v).Some? ==> ToU128(v).value == Int(v)
  {
    hide P2, Pow, BitAt, BitLength;
    FitsCorrect(v, 128, true);
    FitsCorrect(v, 128, false);
    WordSizes();
    P2Step(127);
    WrapRoundTrip(Int(v), 128, true);
    var m: int := v.magnitude;
    if m < B128 {
      DivModUnique(m, B128, 0, m);
      if v.negative {
        DivModUnique(Int(v), B128, -1, B128 - m);
        DivModUnique(B128 - m, B128, 0, B128 - m);
      }
    }
  }

  /** Digits in any base, of which there are no more than the hexadecimal ones; none when a character
      is not among them, or there are none. */
  method Parse(digits: string, base: nat) returns (r: Option<BigInt>)
    ensures r.Some? <==> digits != "" && DigitsIn(if base < 16 then base else 16, digits)
    ensures r.Some? ==> r.value == Make(false, ValueIn(base, digits))
  {
    hide ValueIn;
    if digits == "" { return None; }
    var value := 0;
    assert ValueIn(base, digits[..0]) == 0 by { assert digits[..0] == ""; EmptyDigits(base); }
    for i := 0 to |digits|
      invariant DigitsIn(if base < 16 then base else 16, digits[..i]) && value == ValueIn(base, digits[..i])
    {
      var digit := DigitOf(digits[i]);
      if digit == 16 || digit >= base { return None; }
      ValueStep(base, digits, i);
      value := value * base + digit;
    }
    assert digits[..|digits|] == digits;
    return Some(Make(false, value));
  }

  lemma {:induction false} EmptyDigits(base: nat)
    ensures ValueIn(base, "") == 0
  {
  }

  function ToString(v: BigInt): string
  {
    if v.negative then "-" + Decimal(v.magnitude) else Decimal(v.magnitude)
  }

  /** The text is a sign for negative numbers only, and the one decimal text of the magnitude. */
  lemma {:induction false} ToStringCorrect(v: BigInt)
    requires Normal(v)
    ensures var text := ToString(v);
      && text != "" && (text[0] == '-' <==> Int(v) < 0)
      && var digits := if text[0] == '-' then text[1..] else text;
         CanonicalDecimal(digits) && ValueIn(10, digits) == if Int(v) < 0 then -Int(v) else Int(v)
  {
    hide Decimal, ValueIn;
    DecimalValue(v.magnitude);
    if v.negative { assert ToString(v)[1..] == Decimal(v.magnitude); }
  }

  lemma {:induction false} ToStringUnique(v: BigInt, w: BigInt)
    requires Normal(v) && Normal(w) && ToString(v) == ToString(w)
    ensures v == w
  {
    hide ToString, ValueIn;
    ToStringCorrect(v);
    ToStringCorrect(w);
    IntUnique(v, w);
  }
}
