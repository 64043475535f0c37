/** The rounding step on limb vectors: what `round_scaled` does to its big integer, bit by bit. */
module RoundScaled {
  import opened Powers
  import opened Limbs
  import opened BigUints
  import opened Formats
  import opened Rounding

  /** Rounds the big integer, which the source takes by value, and computes what RoundExact says
      about its number. */
  method RoundScaled(negative: bool, significand: BigUint, exponent: int, sticky: bool, f: Format)
    returns (bits: nat)
    requires significand.Valid()
    modifies significand
    ensures bits == RoundExact(negative, old(significand.Value()), exponent, sticky, f)
  {
    hide Pow, P2, BitAt, BitLength, LimbValue, Trimmed, Pack, RoundedSignificand;
    if significand.IsZero() { return Zero(negative); }
    ghost var s := significand.Value();
    var info := Info(f);
    var length := significand.BitLen();
    var topExponent := exponent + length - 1;
    if topExponent > info.maxExponent { return Infinity(negative); }

    // Subnormals lose a bit for each step below the smallest normal exponent.
    var keptBits: int := info.precision;
    if topExponent < info.minExponent { keptBits := keptBits - (info.minExponent - topExponent); }
    var droppedBits := length - keptBits;
    assert droppedBits == DroppedBits(s, exponent, f);
    var rounded := KeepBits(significand, length, droppedBits, sticky);
    var exponent' := exponent + droppedBits;
    RoundedFits(s, exponent, sticky, f);
    hide DroppedBits;
    if BitLength(rounded) > info.precision { rounded, exponent' := rounded / 2, exponent' + 1; }
    if rounded != 0 && exponent' + BitLength(rounded) - 1 > info.maxExponent { return Infinity(negative); }
    return ExactQuad(negative, rounded, exponent');
  }

  method KeepBits(significand: BigUint, length: nat, droppedBits: int, sticky: bool) returns (rounded: nat)
    requires significand.Valid() && length == BitLength(significand.Value())
    modifies significand
    ensures rounded == RoundedSignificand(old(significand.Value()), droppedBits, sticky)
  {
    hide Pow, P2, BitAt, BitLength;
    if droppedBits <= 0 {
      return significand.LowU128() * P2(-droppedBits) % B128;
    }
    var guardIndex: nat := droppedBits - 1;
    var guard := significand.Bit(guardIndex);
    var below := sticky;
    if !below { below := significand.AnyBelow(if guardIndex < length then guardIndex else length); }
    significand.ShiftRight(droppedBits);
    rounded := significand.LowU128();
    if guard && (below || rounded % 2 != 0) { rounded := rounded + 1; }
  }
}
