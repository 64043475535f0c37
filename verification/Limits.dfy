/** Limits of sequences of reals, for the numbers that series approximate. */
module Limits {
  import opened Powers

  ghost predicate CloseFrom(s: nat -> real, limit: real, distance: real, n: nat)
  {
    forall m: nat :: n <= m ==> Abs(s(m) - limit) < distance
  }

  ghost predicate EventuallyClose(s: nat -> real, limit: real, distance: real)
  {
    exists n: nat :: CloseFrom(s, limit, distance, n)
  }

  ghost predicate IsLimit(s: nat -> real, limit: real)
  {
    forall distance: real :: 0.0 < distance ==> EventuallyClose(s, limit, distance)
  }

  lemma {:induction false} CloseMember(s: nat -> real, x: real, y: real, distance: real, from: nat) returns (m: nat)
    requires IsLimit(s, x) && IsLimit(s, y) && 0.0 < distance
    ensures from <= m && Abs(s(m) - x) < distance && Abs(s(m) - y) < distance
  {
    assert EventuallyClose(s, x, distance) && EventuallyClose(s, y, distance);
    var n: nat :| CloseFrom(s, x, distance, n);
    var k: nat :| CloseFrom(s, y, distance, k);
    m := if n < k then k else n;
    m := if m < from then from else m;
  }

  /** Whatever is near all later members of a sequence is as near to its limit. */
  lemma {:induction false} LimitWithin(s: nat -> real, limit: real, value: real, error: real, from: nat)
    requires IsLimit(s, limit) && forall m: nat :: from <= m ==> Abs(value - s(m)) <= error
    ensures Abs(value - limit) <= error
  {
    var d := Abs(value - limit) - error;
    if d > 0.0 {
      var m := CloseMember(s, limit, limit, d, from);
    }
  }

  /** A sequence has one limit at most. */
  lemma {:induction false} LimitUnique(s: nat -> real, x: real, y: real)
    requires IsLimit(s, x) && IsLimit(s, y)
    ensures x == y
  {
    var d := Abs(x - y) / 2.0;
    if d > 0.0 {
      var m := CloseMember(s, x, y, d, 0);
    }
  }
}
