/** Struct bodies with explicit padding: where the fields land when the body is laid out by the
    natural rule, and which body index each field has. */
module PaddedLayouts {
  import opened Powers
  import opened Digits

  // ----- The layout rule ----------------------------------------------------------------------------

  /** A member type with its allocation size and natural alignment, or a run of padding bytes. */
  datatype Type = Named(id: nat, size: nat, alignment: nat) | Bytes(count: nat)

  function Size(t: Type): nat
  {
    match t
    case Named(_, size, _) => size
    case Bytes(count) => count
  }

  function Natural(t: Type, packed: bool): nat
  {
    match t
    case Named(_, _, alignment) => if packed then 1 else alignment
    case Bytes(_) => 1
  }

  ghost predicate PowerOfTwo(a: nat)
  {
    exists k: nat :: a == P2(k)
  }

  /** Natural alignments are powers of two; a wanted one may also be zero, for none. */
  ghost predicate Alignments(types: seq<Type>, wanted: seq<nat>)
  {
    && |types| == |wanted|
    && (forall i :: 0 <= i < |types| ==> PowerOfTwo(Natural(types[i], false)))
    && (forall i :: 0 <= i < |wanted| ==> wanted[i] == 0 || PowerOfTwo(wanted[i]))
  }

  function Max(a: nat, b: nat): nat
  {
    if a >= b then a else b
  }

  /** Rounds up to a multiple. */
  function AlignTo(x: nat, a: nat): (r: int)
    requires 0 < a
    ensures x <= r
  {
    assert (x + a - 1) / a * a + (x + a - 1) % a == x + a - 1;
    (x + a - 1) / a * a
  }

  /** Where a body laid out by the natural (or the packed) rule ends, before its final rounding. */
  function BodyEnd(body: seq<Type>, packed: bool): nat
    requires forall k :: 0 <= k < |body| ==> 0 < Natural(body[k], packed)
  {
    if body == [] then 0
    else
      var last := body[|body| - 1];
      AlignTo(BodyEnd(body[..|body| - 1], packed), Natural(last, packed)) + Size(last)
  }

  function BodyOffset(body: seq<Type>, packed: bool, k: nat): int
    requires k < |body| && forall k :: 0 <= k < |body| ==> 0 < Natural(body[k], packed)
  {
    AlignTo(BodyEnd(body[..k], packed), Natural(body[k], packed))
  }

  function BodyAlignment(body: seq<Type>, packed: bool): (a: nat)
    ensures 0 < a
  {
    if body == [] then 1 else Max(BodyAlignment(body[..|body| - 1], packed), Natural(body[|body| - 1], packed))
  }

  function BodySize(body: seq<Type>, packed: bool): int
    requires forall k :: 0 <= k < |body| ==> 0 < Natural(body[k], packed)
  {
    AlignTo(BodyEnd(body, packed), BodyAlignment(body, packed))
  }

  // ----- The layout wanted --------------------------------------------------------------------------

  function Wanted(types: seq<Type>, wanted: seq<nat>, packed: bool, i: nat): nat
    requires i < |types| == |wanted|
  {
    Max(Natural(types[i], packed), wanted[i])
  }

  /** The end of the first `i` fields: each starts at the end of the one before, rounded up to the
      larger of its natural and its wanted alignment. */
  function FieldEnd(types: seq<Type>, wanted: seq<nat>, packed: bool, i: nat): nat
    requires i <= |types| == |wanted| && forall k :: 0 <= k < |types| ==> 0 < Natural(types[k], packed)
    decreases i, 0
  {
    if i == 0 then 0 else FieldOffset(types, wanted, packed, i - 1) + Size(types[i - 1])
  }

  function FieldOffset(types: seq<Type>, wanted: seq<nat>, packed: bool, i: nat): int
    requires i < |types| == |wanted| && forall k :: 0 <= k < |types| ==> 0 < Natural(types[k], packed)
    decreases i, 1
  {
    AlignTo(FieldEnd(types, wanted, packed, i), Wanted(types, wanted, packed, i))
  }

  /** The largest alignment among the first `i` fields. */
  function Alignment(types: seq<Type>, wanted: seq<nat>, packed: bool, i: nat): (a: nat)
    requires i <= |types| == |wanted|
    ensures 0 < a
  {
    if i == 0 then 1 else Max(Alignment(types, wanted, packed, i - 1), Wanted(types, wanted, packed, i - 1))
  }

  function TotalSize(types: seq<Type>, wanted: seq<nat>, packed: bool): int
    requires |types| == |wanted| && forall k :: 0 <= k < |types| ==> 0 < Natural(types[k], packed)
  {
    AlignTo(FieldEnd(types, wanted, packed, |types|), Alignment(types, wanted, packed, |types|))
  }

  // ----- Rounding up --------------------------------------------------------------------------------

  lemma {:induction false} PowersDivide(a: nat, b: nat)
    requires PowerOfTwo(a) && PowerOfTwo(b) && a <= b
    ensures 0 < a && b % a == 0
  {
    hide P2, Pow;
    var j: nat :| a == P2(j);
    var k: nat :| b == P2(k);
    if k < j { P2Strict(k, j); }
    P2Add(j, k - j);
    DivModUnique(b, a, P2(k - j), 0);
  }

  /** Rounding up gives a multiple, less than one multiple above. */
  lemma {:induction false} AlignToMultiple(x: nat, a: nat)
    requires 0 < a
    ensures AlignTo(x, a) % a == 0 && AlignTo(x, a) < x + a
    ensures x % a == 0 ==> AlignTo(x, a) == x
  {
    var q := (x + a - 1) / a;
    DivModUnique(q * a, a, q, 0);
    assert q * a + (x + a - 1) % a == x + a - 1;
    if x % a == 0 {
      assert x == x / a * a;
      DivModUnique(x + a - 1, a, x / a, a - 1);
    }
  }

  /** `offset` is the first multiple of `a` from `end` on. */
  predicate FirstMultiple(offset: int, end: nat, a: nat)
  {
    0 < a && end <= offset < end + a && offset % a == 0
  }

  function SumOfSizes(body: seq<Type>): nat
  {
    if body == [] then 0 else SumOfSizes(body[..|body| - 1]) + Size(body[|body| - 1])
  }

  /** Under the packed rule members follow each other without gaps. */
  lemma {:induction false} PackedDense(body: seq<Type>)
    ensures BodyEnd(body, true) == BodySize(body, true) == SumOfSizes(body)
    ensures forall k :: 0 <= k < |body| ==> BodyOffset(body, true, k) == SumOfSizes(body[..k])
  {
    PackedAlignment(body);
    forall k | 0 <= k <= |body|
      ensures BodyEnd(body[..k], true) == SumOfSizes(body[..k])
    {
      PackedEnd(body[..k]);
    }
    assert body[..|body|] == body;
    forall k | 0 <= k < |body|
      ensures BodyOffset(body, true, k) == SumOfSizes(body[..k])
    {
      AlignToMultiple(BodyEnd(body[..k], true), 1);
    }
    AlignToMultiple(BodyEnd(body, true), 1);
  }

  lemma {:induction false} PackedEnd(body: seq<Type>)
    ensures BodyEnd(body, true) == SumOfSizes(body)
  {
    if body != [] {
      PackedEnd(body[..|body| - 1]);
      AlignToMultiple(BodyEnd(body[..|body| - 1], true), 1);
    }
  }

  lemma {:induction false} PackedAlignment(body: seq<Type>)
    ensures BodyAlignment(body, true) == 1
  {
    if body != [] { PackedAlignment(body[..|body| - 1]); }
  }

  /** Under the natural rule each member starts at the first multiple of its own alignment, and the
      whole ends at the first multiple of an alignment that none exceeds. */
  lemma {:induction false} NaturalAligned(body: seq<Type>, k: nat)
    requires k < |body| && body[k].Named? && (forall i :: 0 <= i < |body| ==> 0 < Natural(body[i], false))
    ensures FirstMultiple(BodyOffset(body, false, k), BodyEnd(body[..k], false), body[k].alignment)
    ensures FirstMultiple(BodySize(body, false), BodyEnd(body, false), BodyAlignment(body, false))
    ensures body[k].alignment <= BodyAlignment(body, false)
  {
    AlignToMultiple(BodyEnd(body[..k], false), body[k].alignment);
    AlignToMultiple(BodyEnd(body, false), BodyAlignment(body, false));
    AlignmentAtLeast(body, k);
  }

  lemma {:induction false} AlignmentAtLeast(body: seq<Type>, k: nat)
    requires k < |body|
    ensures Natural(body[k], false) <= BodyAlignment(body, false)
  {
    if k < |body| - 1 { AlignmentAtLeast(body[..|body| - 1], k); }
  }

  /** A field starts at the first multiple, after the field before it, of the larger of the alignments
      wanted and natural; a packed struct has no natural ones. */
  lemma {:induction false} FieldPlaced(types: seq<Type>, wanted: seq<nat>, packed: bool, i: nat)
    requires i < |types| == |wanted| && types[i].Named? && (forall k :: 0 <= k < |types| ==> 0 < Natural(types[k], packed))
    ensures var own := if packed then 1 else types[i].alignment;
      FirstMultiple(FieldOffset(types, wanted, packed, i), FieldEnd(types, wanted, packed, i),
                    if own <= wanted[i] then wanted[i] else own)
    ensures FieldEnd(types, wanted, packed, i + 1) == FieldOffset(types, wanted, packed, i) + types[i].size
    ensures FieldEnd(types, wanted, packed, 0) == 0
  {
    AlignToMultiple(FieldEnd(types, wanted, packed, i), Wanted(types, wanted, packed, i));
  }

  /** What is rounded to a larger power of two is already rounded to a smaller one. */
  lemma {:induction false} AlignedBoth(x: nat, a: nat, b: nat)
    requires 0 < a && 0 < b && b % a == 0
    ensures AlignTo(AlignTo(x, b), a) == AlignTo(x, b)
  {
    AlignToMultiple(x, b);
    var r := AlignTo(x, b);
    assert r == r / b * b && b == b / a * a;
    assert r == (r / b * (b / a)) * a by { MulAssoc(r / b, b / a, a); }
    DivModUnique(r, a, r / b * (b / a), 0);
    AlignToMultiple(r, a);
  }

  lemma {:induction false} AlignOne(x: nat)
    ensures AlignTo(x, 1) == x
  {
  }

  lemma {:induction false} PowerPositive(a: nat)
    requires PowerOfTwo(a)
    ensures 0 < a
  {
  }

  lemma {:induction false} One()
    ensures PowerOfTwo(1)
  {
    P2Zero();
    assert P2(0) == 1;
  }

  // ----- Growing a body -----------------------------------------------------------------------------

  predicate Positive(body: seq<Type>, packed: bool)
  {
    forall k :: 0 <= k < |body| ==> 0 < Natural(body[k], packed)
  }

  lemma {:induction false} Appended(body: seq<Type>, t: Type, packed: bool)
    requires Positive(body, packed) && 0 < Natural(t, packed)
    ensures Positive(body + [t], packed)
    ensures BodyEnd(body + [t], packed) == AlignTo(BodyEnd(body, packed), Natural(t, packed)) + Size(t)
    ensures BodyOffset(body + [t], packed, |body|) == AlignTo(BodyEnd(body, packed), Natural(t, packed))
    ensures forall k :: 0 <= k < |body| ==> BodyOffset(body + [t], packed, k) == BodyOffset(body, packed, k)
    ensures BodyAlignment(body + [t], packed) == Max(BodyAlignment(body, packed), Natural(t, packed))
  {
    assert (body + [t])[..|body|] == body;
    forall k | 0 <= k < |body|
      ensures BodyOffset(body + [t], packed, k) == BodyOffset(body, packed, k)
    {
      assert (body + [t])[..k] == body[..k];
    }
  }

  /** The fields placed so far: each at its offset, in order, with nothing but padding between. */
  ghost predicate Placed(types: seq<Type>, wanted: seq<nat>, packed: bool, i: nat, body: seq<Type>, indices: seq<nat>)
    requires i <= |types| == |wanted| && Positive(types, packed)
  {
    && |indices| == i && Positive(body, packed)
    && (forall k :: 0 <= k < i ==> indices[k] < |body| && body[indices[k]] == types[k])
    && (forall k :: 0 <= k < i ==> BodyOffset(body, packed, indices[k]) == FieldOffset(types, wanted, packed, k))
    && (forall j, k :: 0 <= j < k < i ==> indices[j] < indices[k])
    && (forall m :: 0 <= m < |body| && m !in indices ==> body[m].Bytes?)
  }

  lemma {:induction false} PlacedPadding(types: seq<Type>, wanted: seq<nat>, packed: bool, i: nat, body: seq<Type>,
      indices: seq<nat>, count: nat)
    requires i <= |types| == |wanted| && Positive(types, packed) && Placed(types, wanted, packed, i, body, indices)
    ensures Placed(types, wanted, packed, i, body + [Bytes(count)], indices)
    ensures BodyEnd(body + [Bytes(count)], packed) == BodyEnd(body, packed) + count
    ensures BodyAlignment(body + [Bytes(count)], packed) == BodyAlignment(body, packed)
  {
    Appended(body, Bytes(count), packed);
    AlignOne(BodyEnd(body, packed));
  }

  lemma {:induction false} PlacedField(types: seq<Type>, wanted: seq<nat>, packed: bool, i: nat, body: seq<Type>, indices: seq<nat>)
    requires i < |types| == |wanted| && Positive(types, packed) && Placed(types, wanted, packed, i, body, indices)
    requires AlignTo(BodyEnd(body, packed), Natural(types[i], packed)) == FieldOffset(types, wanted, packed, i)
    ensures Placed(types, wanted, packed, i + 1, body + [types[i]], indices + [|body|])
    ensures BodyEnd(body + [types[i]], packed) == FieldEnd(types, wanted, packed, i + 1)
  {
    hide BodyOffset, FieldOffset, AlignTo, Natural, BodyEnd;
    Appended(body, types[i], packed);
    var grown, now := body + [types[i]], indices + [|body|];
    forall m | 0 <= m < |grown| && m !in now
      ensures grown[m].Bytes?
    {
      assert now[|indices|] == |body|;
      assert m < |body|;
    }
    FieldEndIs(types, wanted, packed, i);
  }

  lemma {:induction false} FieldEndIs(types: seq<Type>, wanted: seq<nat>, packed: bool, i: nat)
    requires i < |types| == |wanted| && Positive(types, packed)
    ensures FieldEnd(types, wanted, packed, i + 1) == FieldOffset(types, wanted, packed, i) + Size(types[i])
  {
  }

  // ----- Alignments are powers of two -----------------------------------------------------------------

  lemma {:induction false} NaturalPower(types: seq<Type>, wanted: seq<nat>, packed: bool)
    requires Alignments(types, wanted)
    ensures Positive(types, packed)
    ensures forall i :: 0 <= i < |types| ==> PowerOfTwo(Natural(types[i], packed))
    ensures forall i :: 0 <= i < |types| ==> PowerOfTwo(Wanted(types, wanted, packed, i))
  {
    hide PowerOfTwo;
    One();
    forall i | 0 <= i < |types|
      ensures PowerOfTwo(Natural(types[i], packed)) && 0 < Natural(types[i], packed)
      ensures PowerOfTwo(Wanted(types, wanted, packed, i))
    {
      PowerPositive(Natural(types[i], false));
    }
  }

  lemma {:induction false} AlignmentPowers(types: seq<Type>, wanted: seq<nat>, packed: bool, i: nat)
    requires Alignments(types, wanted) && i <= |types|
    ensures PowerOfTwo(Alignment(types, wanted, packed, i)) && PowerOfTwo(BodyAlignment(types[..i], packed))
    ensures BodyAlignment(types[..i], packed) <= Alignment(types, wanted, packed, i)
  {
    hide PowerOfTwo;
    if i == 0 {
      One();
    } else {
      AlignmentPowers(types, wanted, packed, i - 1);
      NaturalPower(types, wanted, packed);
      assert types[..i][..i - 1] == types[..i - 1];
    }
  }

  /** A field's offset is a multiple of its natural alignment already. */
  lemma {:induction false} OffsetNatural(types: seq<Type>, wanted: seq<nat>, packed: bool, i: nat, end: nat)
    requires Alignments(types, wanted) && i < |types| && Positive(types, packed)
    ensures 0 < Wanted(types, wanted, packed, i)
    ensures AlignTo(AlignTo(end, Wanted(types, wanted, packed, i)), Natural(types[i], packed))
         == AlignTo(end, Wanted(types, wanted, packed, i))
  {
    hide PowerOfTwo, AlignTo;
    NaturalPower(types, wanted, packed);
    PowersDivide(Natural(types[i], packed), Wanted(types, wanted, packed, i));
    AlignedBoth(end, Natural(types[i], packed), Wanted(types, wanted, packed, i));
  }

  lemma {:induction false} TotalNatural(types: seq<Type>, wanted: seq<nat>, packed: bool, end: nat)
    requires Alignments(types, wanted)
    ensures var a, n := Alignment(types, wanted, packed, |types|), BodyAlignment(types, packed);
      AlignTo(AlignTo(end, a), n) == AlignTo(end, a)
  {
    hide PowerOfTwo, AlignTo;
    AlignmentPowers(types, wanted, packed, |types|);
    assert types[..|types|] == types;
    var a, n := Alignment(types, wanted, packed, |types|), BodyAlignment(types, packed);
    PowersDivide(n, a);
    AlignedBoth(end, n, a);
  }

  // ----- The translator -------------------------------------------------------------------------------

  datatype Layout = Layout(fieldIndices: seq<nat>, alignment: nat)
  datatype Request = Request(types: seq<Type>, wanted: seq<nat>, packed: bool)

  ghost predicate Reasonable(r: Request)
  {
    Alignments(r.types, r.wanted)
  }

  /** The body, laid out by LLVM's rule, puts every field where it is wanted and has the size wanted. */
  ghost predicate LaidOut(r: Request, body: seq<Type>, indices: seq<nat>)
  {
    && Reasonable(r) && Positive(r.types, r.packed)
    && Placed(r.types, r.wanted, r.packed, |r.types|, body, indices)
    && BodySize(body, r.packed) == TotalSize(r.types, r.wanted, r.packed)
  }

  function Identity(n: nat): (s: seq<nat>)
    ensures |s| == n && forall i :: 0 <= i < n ==> s[i] == i
  {
    seq(n, i requires 0 <= i => i)
  }

  /** The state of the padding loop after `i` fields. */
  ghost predicate PaddingState(r: Request, i: nat, body: seq<Type>, indices: seq<nat>, end: nat, alignment: nat, inserted: bool)
    requires Reasonable(r) && Positive(r.types, r.packed) && i <= |r.types|
  {
    && Placed(r.types, r.wanted, r.packed, i, body, indices)
    && end == BodyEnd(body, r.packed) == FieldEnd(r.types, r.wanted, r.packed, i)
    && alignment == Alignment(r.types, r.wanted, r.packed, i)
    && BodyAlignment(body, r.packed) == BodyAlignment(r.types[..i], r.packed)
    && (!inserted ==> body == r.types[..i] && indices == Identity(i))
  }

  lemma {:induction false} PaddingStart(r: Request)
    requires Reasonable(r) && Positive(r.types, r.packed)
    ensures PaddingState(r, 0, [], [], 0, 1, false)
  {
  }

  /** Padding, if the natural rule would not reach the offset, and the field behind it. */
  lemma {:induction false} PaddingStep(r: Request, i: nat, body: seq<Type>, indices: seq<nat>, end: nat, alignment: nat,
      inserted: bool, body': seq<Type>, inserted': bool)
    requires Reasonable(r) && Positive(r.types, r.packed) && i < |r.types|
    requires PaddingState(r, i, body, indices, end, alignment, inserted)
    requires 0 < Wanted(r.types, r.wanted, r.packed, i)
    requires
      var offset := AlignTo(end, Wanted(r.types, r.wanted, r.packed, i));
      if offset != AlignTo(end, Natural(r.types[i], r.packed)) && offset != end
      then body' == body + [Bytes(offset - end)] && inserted'
      else body' == body && inserted' == inserted
    ensures PaddingState(r, i + 1, body' + [r.types[i]], indices + [|body'|],
                         FieldOffset(r.types, r.wanted, r.packed, i) + Size(r.types[i]),
                         Max(alignment, Wanted(r.types, r.wanted, r.packed, i)), inserted')
  {
    hide BodyOffset, AlignTo, PowerOfTwo, BodyEnd, Placed, BodyAlignment;
    assert r.types[..i] + [r.types[i]] == r.types[..i + 1];
    assert Identity(i) + [i] == Identity(i + 1);
    var natural, offset := Natural(r.types[i], r.packed), AlignTo(end, Wanted(r.types, r.wanted, r.packed, i));
    OffsetNatural(r.types, r.wanted, r.packed, i, end);
    assert offset == FieldOffset(r.types, r.wanted, r.packed, i);
    if body' != body { PlacedPadding(r.types, r.wanted, r.packed, i, body, indices, offset - end); }
    PlacedPositive(r.types, r.wanted, r.packed, i, body', indices);
    hide Alignments;
    PlacedNext(r, i, body', indices, natural, offset);
  }

  lemma {:induction false} PlacedNext(r: Request, i: nat, body: seq<Type>, indices: seq<nat>, natural: nat, offset: int)
    requires Reasonable(r) && Positive(r.types, r.packed) && i < |r.types| == |r.wanted|
    requires Placed(r.types, r.wanted, r.packed, i, body, indices) && Positive(body, r.packed)
    requires natural == Natural(r.types[i], r.packed) && offset == FieldOffset(r.types, r.wanted, r.packed, i)
    requires AlignTo(BodyEnd(body, r.packed), natural) == offset
    ensures Placed(r.types, r.wanted, r.packed, i + 1, body + [r.types[i]], indices + [|body|])
    ensures Positive(body + [r.types[i]], r.packed)
    ensures BodyEnd(body + [r.types[i]], r.packed) == offset + Size(r.types[i]) == FieldEnd(r.types, r.wanted, r.packed, i + 1)
    ensures BodyAlignment(body + [r.types[i]], r.packed) == Max(BodyAlignment(body, r.packed), natural)
    ensures BodyAlignment(r.types[..i] + [r.types[i]], r.packed) == Max(BodyAlignment(r.types[..i], r.packed), natural)
  {
    hide BodyOffset, AlignTo, PowerOfTwo, BodyEnd, Placed, BodyAlignment, Alignments;
    PlacedField(r.types, r.wanted, r.packed, i, body, indices);
    Appended(body, r.types[i], r.packed);
    Appended(r.types[..i], r.types[i], r.packed);
    FieldEndIs(r.types, r.wanted, r.packed, i);
  }

  lemma {:induction false} PlacedPositive(types: seq<Type>, wanted: seq<nat>, packed: bool, i: nat, body: seq<Type>, indices: seq<nat>)
    requires i <= |types| == |wanted| && Positive(types, packed) && Placed(types, wanted, packed, i, body, indices)
    ensures Positive(body, packed)
  {
  }

  /** Trailing padding, if the natural rule would not reach the total size. */
  lemma {:induction false} PaddingEnd(r: Request, body: seq<Type>, indices: seq<nat>, end: nat, alignment: nat, inserted: bool,
      body': seq<Type>)
    requires Reasonable(r) && Positive(r.types, r.packed) && 0 < alignment
    requires PaddingState(r, |r.types|, body, indices, end, alignment, inserted)
    requires var total := AlignTo(end, alignment);
      if total != AlignTo(end, BodyAlignment(r.types, r.packed)) && total != end
      then body' == body + [Bytes(total - end)] else body' == body
    ensures LaidOut(r, body', indices)
  {
    hide BodyOffset, AlignTo, PowerOfTwo, BodyEnd, Placed, BodyAlignment;
    var n := |r.types|;
    assert r.types[..n] == r.types;
    var total := AlignTo(end, alignment);
    TotalNatural(r.types, r.wanted, r.packed, end);
    if body' != body { PlacedPadding(r.types, r.wanted, r.packed, n, body, indices, total - end); }
    PlacedPositive(r.types, r.wanted, r.packed, n, body', indices);
    TotalIs(r);
  }

  lemma {:induction false} TotalIs(r: Request)
    requires Reasonable(r) && Positive(r.types, r.packed)
    ensures TotalSize(r.types, r.wanted, r.packed)
         == AlignTo(FieldEnd(r.types, r.wanted, r.packed, |r.types|), Alignment(r.types, r.wanted, r.packed, |r.types|))
  {
  }

  /** What is kept of a struct fits its body: the indices of the fields are their own when nothing was
      inserted. */
  ghost predicate Stored(r: Request, body: seq<Type>, layout: Option<Layout>)
  {
    match layout
    case None => body == r.types && LaidOut(r, body, Identity(|body|))
    case Some(l) =>
      && LaidOut(r, body, l.fieldIndices) && |r.types| == |r.wanted|
      && l.alignment == Alignment(r.types, r.wanted, r.packed, |r.types|)
  }

  lemma {:induction false} StoredIs(r: Request, body: seq<Type>, layout: Layout, inserted: bool)
    requires LaidOut(r, body, layout.fieldIndices) && |r.types| == |r.wanted|
    requires layout.alignment == Alignment(r.types, r.wanted, r.packed, |r.types|)
    requires !inserted ==> body == r.types && layout.fieldIndices == Identity(|r.types|)
    ensures Stored(r, body, if inserted then Some(layout) else None)
  {
    hide LaidOut;
  }

  /** The body with its padding, the layout that goes with it, and whether there is any padding. */
  method PadBody(types: seq<Type>, wanted: seq<nat>, packed: bool)
    returns (padded: seq<Type>, layout: Layout, inserted: bool)
    requires Alignments(types, wanted)
    ensures LaidOut(Request(types, wanted, packed), padded, layout.fieldIndices)
    ensures |types| == |wanted| && layout.alignment == Alignment(types, wanted, packed, |types|)
    ensures !inserted ==> padded == types && layout.fieldIndices == Identity(|types|)
  {
    hide AlignTo, PowerOfTwo, LaidOut, PaddingState, Placed, BodyAlignment;
    ghost var r := Request(types, wanted, packed);
    NaturalPower(types, wanted, packed);
    PaddingStart(r);
    var indices: seq<nat> := [];
    var end: nat, alignment: nat := 0, 1;
    padded, inserted := [], false;
    for i := 0 to |types|
      invariant 0 < alignment && PaddingState(r, i, padded, indices, end, alignment, inserted)
    {
      var natural := Natural(types[i], packed);
      var wantedAlignment := Max(natural, wanted[i]);
      var offset := AlignTo(end, wantedAlignment);
      ghost var before, was := padded, inserted;
      if offset != AlignTo(end, natural) && offset != end {
        padded, inserted := padded + [Bytes(offset - end)], true;
      }
      PaddingStep(r, i, before, indices, end, alignment, was, padded, inserted);
      OffsetIs(r, i, before, indices, end, alignment, was);
      indices := indices + [|padded|];
      padded := padded + [types[i]];
      end := offset + Size(types[i]);
      alignment := Max(alignment, wantedAlignment);
    }

    // What the layout rule will not add at the end by itself has to be a member.
    var naturalAlignment := NaturalAlignment(types, packed);
    var total := AlignTo(end, alignment);
    ghost var before, was := padded, inserted;
    if total != AlignTo(end, naturalAlignment) && total != end {
      padded, inserted := padded + [Bytes(total - end)], true;
    }
    PaddingEnd(r, before, indices, end, alignment, was, padded);
    StateFacts(r, before, indices, end, alignment, was);
    layout := Layout(indices, alignment);
  }

  function Lookup(layouts: map<nat, Layout>, s: nat): Option<Layout>
  {
    if s in layouts then Some(layouts[s]) else None
  }

  ghost predicate AllStored(requests: map<nat, Request>, bodies: map<nat, seq<Type>>, layouts: map<nat, Layout>)
  {
    && bodies.Keys == requests.Keys && layouts.Keys <= bodies.Keys
    && (forall s :: s in bodies ==> Stored(requests[s], bodies[s], Lookup(layouts, s)))
  }

  lemma {:induction false} StoreOne(requests: map<nat, Request>, bodies: map<nat, seq<Type>>, layouts: map<nat, Layout>,
      s: nat, r: Request, body: seq<Type>, layout: Option<Layout>)
    requires AllStored(requests, bodies, layouts) && s !in bodies && Stored(r, body, layout)
    ensures AllStored(requests[s := r], bodies[s := body], if layout.Some? then layouts[s := layout.value] else layouts)
  {
    hide Stored;
    var layouts' := if layout.Some? then layouts[s := layout.value] else layouts;
    forall t | t in bodies[s := body]
      ensures Stored(requests[s := r][t], bodies[s := body][t], Lookup(layouts', t))
    {
      if t != s { assert Lookup(layouts', t) == Lookup(layouts, t); }
    }
  }

  class TypeTranslator {
    /** The bodies given to struct types, and the layouts of those that needed padding. */
    var bodies: map<nat, seq<Type>>
    var paddedStructs: map<nat, Layout>
    ghost var requests: map<nat, Request>

    constructor ()
      ensures Valid() && bodies == map[] && paddedStructs == map[] && requests == map[]
    {
      bodies, paddedStructs, requests := map[], map[], map[];
    }

    ghost predicate Valid()
      reads this
    {
      AllStored(requests, bodies, paddedStructs)
    }

    /** Sets the body of a struct type that has none yet. */
    method SetPaddedBody(s: nat, types: seq<Type>, wanted: seq<nat>, packed: bool)
      requires Valid() && s !in bodies && Alignments(types, wanted)
      modifies this
      ensures Valid() && requests == old(requests)[s := Request(types, wanted, packed)]
      ensures bodies.Keys == old(bodies).Keys + {s}
      ensures forall t :: t in old(bodies) ==> bodies[t] == old(bodies)[t]
      ensures s !in paddedStructs ==> bodies[s] == types
    {
      hide Stored, LaidOut, Alignments, Alignment, AllStored, Lookup, Identity;
      var padded, layout, inserted := PadBody(types, wanted, packed);
      StoredIs(Request(types, wanted, packed), padded, layout, inserted);
      StoreOne(requests, bodies, paddedStructs, s, Request(types, wanted, packed), padded,
               if inserted then Some(layout) else None);
      requests := requests[s := Request(types, wanted, packed)];
      if !inserted {
        bodies := bodies[s := types];
      } else {
        bodies := bodies[s := padded];
        paddedStructs := paddedStructs[s := layout];
      }
    }

    /** A field is reached at the index of its own member, which LLVM places at the field's offset. */
    method StructFieldIndex(s: nat, field: nat) returns (index: nat)
      requires Valid() && s in bodies && field < |requests[s].types|
      ensures index < |bodies[s]| && bodies[s][index] == requests[s].types[field]
      ensures Positive(bodies[s], requests[s].packed) && Positive(requests[s].types, requests[s].packed)
      ensures |requests[s].types| == |requests[s].wanted|
      ensures BodyOffset(bodies[s], requests[s].packed, index)
           == FieldOffset(requests[s].types, requests[s].wanted, requests[s].packed, field)
    {
      hide AlignTo, PowerOfTwo, BodyOffset, FieldOffset, BodySize, TotalSize;
      assert Stored(requests[s], bodies[s], Lookup(paddedStructs, s));
      index := if s !in paddedStructs then field else paddedStructs[s].fieldIndices[field];
    }
  }

  method NaturalAlignment(types: seq<Type>, packed: bool) returns (alignment: nat)
    ensures alignment == BodyAlignment(types, packed)
  {
    alignment := 1;
    for i := 0 to |types|
      invariant alignment == if packed then 1 else BodyAlignment(types[..i], packed)
    {
      if packed { break; }
      assert types[..i + 1][..i] == types[..i];
      alignment := Max(alignment, Natural(types[i], packed));
    }
    assert types[..|types|] == types;
    if packed { PackedAlignment(types); }
  }

  lemma {:induction false} OffsetIs(r: Request, i: nat, body: seq<Type>, indices: seq<nat>, end: nat, alignment: nat, inserted: bool)
    requires Reasonable(r) && Positive(r.types, r.packed) && i < |r.types|
    requires PaddingState(r, i, body, indices, end, alignment, inserted)
    ensures 0 < Wanted(r.types, r.wanted, r.packed, i)
    ensures FieldOffset(r.types, r.wanted, r.packed, i) == AlignTo(end, Wanted(r.types, r.wanted, r.packed, i))
  {
    hide AlignTo, Placed;
  }

  lemma {:induction false} StateFacts(r: Request, body: seq<Type>, indices: seq<nat>, end: nat, alignment: nat, inserted: bool)
    requires Reasonable(r) && Positive(r.types, r.packed)
    requires PaddingState(r, |r.types|, body, indices, end, alignment, inserted)
    ensures alignment == Alignment(r.types, r.wanted, r.packed, |r.types|)
    ensures !inserted ==> body == r.types && indices == Identity(|r.types|)
  {
    hide Placed;
    assert r.types[..|r.types|] == r.types;
  }
}
