/**
 Sizes are tight: the maximum computed for a type is the size of one of its values, so that every
 width the layout chooses from it, of a boundary or a length prefix, is the narrowest that does.
 */
module Tightness {
  import opened Wrappers
  import opened Bytes
  import opened Layouts
  import opened Objects
  import opened Sequences
  import opened Scalars
  import opened Types
  import opened Codec
  import opened RoundTrips
  import opened SizeBounds

  /** `length` is the maximum, or reaches the message size where there is none. */
  predicate Attains(max: Option<nat>, length: nat) {
    if max.Some? then length == max.value else length >= MAX_SIZE
  }

  // ----- an object with every field at its largest

  predicate FullPart(m: Member, p: Part) {
    && (m.IsOptional() ==> p.Chunk? && p.chunk.Some? && |p.chunk.value| == m.size.bytes)
    && (m.IsVar() ==> p.Chunk? && p.chunk.Some? && Attains(m.size.max, |p.chunk.value|))
  }

  /** Every field that varies is present and as large as it gets. */
  predicate Full(ms: seq<Member>, ps: seq<Part>) {
    |ms| == |ps| && forall i :: 0 <= i < |ms| ==> FullPart(ms[i], ps[i])
  }

  lemma {:induction false} FullOptionals(ms: seq<Member>, ps: seq<Part>)
    requires Full(ms, ps)
    ensures |Flat(OptionalPieces(ms, ps))| == OptionalBytes(ms)
  {
    if ms != [] {
      var n := |ms| - 1;
      FullOptionals(ms[..n], ps[..n]);
      assert OptionalPieces(ms, ps)[..n] == OptionalPieces(ms[..n], ps[..n]);
    }
  }

  lemma {:induction false} FullChunks(ms: seq<Member>, ps: seq<Part>)
    requires Full(ms, ps)
    ensures Attains(VarMax(ms), |Flat(VarChunks(ms, ps))|)
  {
    if ms != [] {
      var n := |ms| - 1;
      FullChunks(ms[..n], ps[..n]);
      assert FullPart(ms[n], ps[n]);
      var front := VarChunks(ms[..n], ps[..n]);
      assert VarChunks(ms, ps) == front + if ms[n].IsVar() then [ChunkBytes(ps[n])] else [];
      FlatAdd(front, ChunkBytes(ps[n]));
      assert front + [] == front;
    }
  }

  function Zeros(n: nat): (b: seq<byte>)
    ensures |b| == n
  {
    seq(n, _ => 0)
  }

  /** A part as large as `m` allows. */
  function LargestPart(m: Member): (p: Part)
    ensures PartFits(m, p) && FullPart(m, p)
    ensures m.IsVar() && m.size.max.Some? ==> |ChunkBytes(p)| <= m.size.max.value
  {
    if m.flag then if m.optional then MaybeFlag(None) else Flag(false)
    else if m.size.Fixed? then if m.optional then Chunk(Some(Zeros(m.size.bytes))) else Plain(Zeros(m.size.bytes))
    else Chunk(Some(Zeros(m.size.max.GetOr(MAX_SIZE))))
  }

  function LargestParts(ms: seq<Member>): (ps: seq<Part>)
    ensures PartsFit(ms, ps) && Full(ms, ps) && ChunksWithin(ms, ps)
  {
    seq(|ms|, i requires 0 <= i < |ms| => LargestPart(ms[i]))
  }

  /** The size of an object laid out with one byte for each boundary. */
  function NarrowSize(ms: seq<Member>, ps: seq<Part>): nat
    requires |ms| == |ps|
  {
    Boundaries(ms) + BoundaryCount(ms) + |Flat(OptionalPieces(ms, ps))| + |Flat(VarChunks(ms, ps))|
  }

  /** A boundary takes one byte exactly when no object with one-byte boundaries is larger than 255 bytes. */
  lemma {:induction false} BoundaryLeast(ms: seq<Member>)
    ensures BoundaryWidth(ms) == 1 <==> forall ps :: PartsFit(ms, ps) && ChunksWithin(ms, ps) ==> NarrowSize(ms, ps) <= 0xff
  {
    hide ChunksWithin, Full, Attains, PartFits;
    forall ps | PartsFit(ms, ps) && ChunksWithin(ms, ps) && BoundaryWidth(ms) == 1 ensures NarrowSize(ms, ps) <= 0xff {
      OptionalSectionMax(ms, ps);
      VarSectionMax(ms, ps);
    }
    LargestNarrow(ms);
  }

  lemma {:induction false} LargestNarrow(ms: seq<Member>)
    ensures var ps := LargestParts(ms); |ms| == |ps| && (NarrowSize(ms, ps) <= 0xff ==> BoundaryWidth(ms) == 1)
  {
    var ps := LargestParts(ms);
    FullOptionals(ms, ps);
    FullChunks(ms, ps);
  }

  // ----- the largest value of a type

  ghost predicate HasAtom(s: Scalar)
    requires ScalarWf(s)
  {
    exists a :: AtomTyped(s, a) && AtomMeets(s, a)
  }

  /** `max_length = 0` over items without a maximum: the one maximum that is computed too large. */
  predicate EmptyOverUnbounded(element: Type, lengths: Lengths)
    requires Wf(element)
  {
    lengths.max == Some(0) && SizeOf(element).Max().None?
  }

  /** Every part of the type has a value, and its collections of unbounded items may hold some. */
  ghost predicate Ample(ty: Type)
    requires Wf(ty)
    decreases ty
  {
    match ty
    case Atomic(s) => HasAtom(s)
    case Blob(_, _) => true
    case Array(item, count) => count > 0 ==> Ample(item)
    case Collection(_, element, lengths) => Ample(element) && !EmptyOverUnbounded(element, lengths)
    case Pair(key, value) => Ample(key) && Ample(value)
    case Newtype(target) => Ample(target)
    case Struct(fields) => forall i :: 0 <= i < |fields| ==> Ample(fields[i].ty)
    case Union(variants) => forall i :: 0 <= i < |variants| && variants[i].Data? ==> Ample(variants[i].ty)
  }

  ghost predicate Tightest(ty: Type, v: Value) {
    Encodable(ty, v) && Meets(ty, v) && Attains(SizeOf(ty).Max(), |Enc(ty, v)|)
  }

  /** A value of a type as large as its maximum. */
  lemma {:induction false} Largest(ty: Type) returns (v: Value)
    requires Wf(ty) && Good(ty) && Ample(ty)
    ensures Tightest(ty, v)
    decreases ty, 1
  {
    match ty {
      case Atomic(s) =>
        var a :| AtomTyped(s, a) && AtomMeets(s, a);
        v := Leaf(a);
      case Blob(_, lengths) => v := LargestBlob(ty);
      case Array(item, count) => v := LargestArray(ty);
      case Collection(_, _, _) => v := LargestCollection(ty);
      case Pair(key, value) =>
        var k := Largest(key);
        var x := Largest(value);
        v := Entry(k, x);
        LargestPair(ty, v);
      case Newtype(target) =>
        var inner := Largest(target);
        v := Wrapped(inner);
      case Struct(fields) => v := LargestStruct(fields);
      case Union(variants) => v := LargestUnion(variants);
    }
  }

  function Letters(n: nat): (b: seq<byte>)
    ensures |b| == n && forall i :: 0 <= i < n ==> b[i] == 0x61
  {
    seq(n, _ => 0x61)
  }

  lemma {:induction false} LettersUtf8(b: seq<byte>)
    requires forall i :: 0 <= i < |b| ==> b[i] == 0x61
    ensures Utf8(b)
    decreases |b|
  {
    if b != [] {
      assert CharLength(b) == 1;
      LettersUtf8(b[1..]);
    }
  }

  lemma {:induction false} LargestBlob(ty: Type) returns (v: Value)
    requires ty.Blob? && Wf(ty) && Good(ty)
    ensures Tightest(ty, v)
  {
    var n := ty.lengths.max.GetOr(MAX_SIZE);
    LettersUtf8(Letters(n));
    v := Raw(Letters(n));
  }

  lemma {:induction false} LargestArray(ty: Type) returns (v: Value)
    requires ty.Array? && Wf(ty) && Good(ty) && Ample(ty)
    ensures Tightest(ty, v)
    decreases ty, 0
  {
    if ty.count == 0 {
      v := Items([]);
    } else {
      var item := Largest(ty.item);
      v := Items(seq(ty.count, _ => item));
      SameItems(ty, v, item);
    }
  }

  lemma {:induction false} SameItems(ty: Type, v: Value, item: Value)
    requires ty.Array? && Wf(ty) && Good(ty) && Tightest(ty.item, item) && v == Items(seq(ty.count, _ => item))
    ensures Tightest(ty, v)
  {
    assert SizeOf(ty).Fixed?;
    hide SizeOf;
  }

  lemma {:induction false} LargestPair(ty: Type, v: Value)
    requires ty.Pair? && Wf(ty) && Good(ty) && v.Entry?
    requires Tightest(ty.key, v.key) && Tightest(ty.value, v.value)
    ensures Tightest(ty, v)
  {
    PairFixed(ty.key, ty.value);
  }

  /** As many items as there may be, each as large as it may be. */
  lemma {:induction false} LargestCollection(ty: Type) returns (v: Value)
    requires ty.Collection? && Wf(ty) && Good(ty) && Ample(ty)
    ensures Tightest(ty, v)
    decreases ty, 0
  {
    var item := Largest(ty.element);
    var n := ty.lengths.max.GetOr(MAX_SIZE);
    v := Items(seq(n, _ => item));
    Repeated(ty, v, item, n);
  }

  lemma {:induction false} Repeated(ty: Type, v: Value, item: Value, n: nat)
    requires ty.Collection? && Wf(ty) && Good(ty) && !EmptyOverUnbounded(ty.element, ty.lengths)
    requires Tightest(ty.element, item) && n == ty.lengths.max.GetOr(MAX_SIZE)
    requires v == Items(seq(n, _ => item))
    ensures Tightest(ty, v)
  {
    RepeatedOk(ty, v, item, n);
    var items, s := EncAll(ty.element, v.items), SequenceOf(SizeOf(ty.element), ty.lengths);
    if s.Packed? {
      FlatSize(items, s.item);
      TimesIsProduct(n, s.item);
      ProductMonotone(1, s.item, n);
    } else if s.Prefixed? {
      RepeatedPrefixed(ty, v, items, |Enc(ty.element, item)|);
    }
  }

  lemma {:induction false} RepeatedOk(ty: Type, v: Value, item: Value, n: nat)
    requires ty.Collection? && Wf(ty) && Good(ty) && Encodable(ty.element, item) && Meets(ty.element, item)
    requires n == ty.lengths.max.GetOr(MAX_SIZE) && v == Items(seq(n, _ => item))
    ensures Encodable(ty, v) && Meets(ty, v)
  {
    hide SizeOf;
  }

  lemma {:induction false} SumOfEqual(items: seq<seq<byte>>, size: nat)
    requires AllOfSize(items, size)
    ensures SumOf(items) == |items| * size
  {
    if items != [] {
      SumOfEqual(items[1..], size);
      assert |items| * size == (|items| - 1) * size + size;
    }
  }

  lemma {:induction false} RepeatedPrefixed(ty: Type, v: Value, items: seq<seq<byte>>, size: nat)
    requires ty.Collection? && Encodable(ty, v) && SequenceOf(SizeOf(ty.element), ty.lengths).Prefixed?
    requires !EmptyOverUnbounded(ty.element, ty.lengths) && |v.items| == ty.lengths.max.GetOr(MAX_SIZE)
    requires items == EncAll(ty.element, v.items) && AllOfSize(items, size) && Attains(SizeOf(ty.element).Max(), size)
    ensures Attains(SizeOf(ty).Max(), |Enc(ty, v)|)
  {
    var s, n := SequenceOf(SizeOf(ty.element), ty.lengths), |items|;
    PrefixedEnc(ty, v);
    PrefixedTopIs(ty);
    hide Enc, SizeOf, Wf, Good, Typed, Checks, JoinItems, SequenceOf, SequenceMax, EncAll;
    JoinedSize(items, s.prefix);
    SumOfEqual(items, size);
    var k := if n == 0 then 0 else n - 1;
    TimesIsProduct(k, s.prefix);
    PrefixedTop(s, SizeOf(ty.element), ty.lengths, n, size, k);
  }

  lemma {:induction false} PrefixedTopIs(ty: Type)
    requires ty.Collection? && Wf(ty)
    ensures var size := SizeOf(ty.element);
            SizeOf(ty).Max() == SequenceMax(SequenceOf(size, ty.lengths), size, ty.lengths)
  {
  }

  /** The maximum computed for a prefixed collection, against the size of `n` items of one size. */
  lemma {:induction false} PrefixedTop(s: Sequence, element: Size, lengths: Lengths, n: nat, size: nat, k: nat)
    requires element.Var? && s == SequenceOf(element, lengths) && s.Prefixed?
    requires !(lengths.max == Some(0) && element.max.None?) && n == lengths.max.GetOr(MAX_SIZE)
    requires k == (if n == 0 then 0 else n - 1) && Attains(element.max, size)
    ensures Attains(SequenceMax(s, element, lengths), s.count + n * size + k * s.prefix)
  {
    ProductMonotone(1, s.prefix, k);
    if n > 0 {
      ProductMonotone(1, n, size);
    }
  }

  // ----- objects

  lemma {:induction false} LargestField(field: Field) returns (o: Option<Value>)
    requires Wf(field.ty) && Good(field.ty) && Ample(field.ty)
    ensures o.Some? && Tightest(field.ty, o.value)
    decreases field
  {
    var v := Largest(field.ty);
    o := Some(v);
  }

  lemma {:induction false} LargestFields(fields: seq<Field>) returns (os: seq<Option<Value>>)
    requires forall i :: 0 <= i < |fields| ==> Wf(fields[i].ty) && Good(fields[i].ty) && Ample(fields[i].ty)
    ensures |os| == |fields| && forall i :: 0 <= i < |fields| ==> os[i].Some? && Tightest(fields[i].ty, os[i].value)
    decreases fields, 0
  {
    hide Tightest, Wf, Good, Ample;
    os := [];
    for i := 0 to |fields|
      invariant |os| == i && forall j :: 0 <= j < i ==> os[j].Some? && Tightest(fields[j].ty, os[j].value)
    {
      var o := LargestField(fields[i]);
      os := os + [o];
    }
  }

  lemma {:induction false} LargestStruct(fields: seq<Field>) returns (v: Value)
    requires var ty := Struct(fields); Wf(ty) && Good(ty) && Ample(ty)
    ensures Tightest(Struct(fields), v)
    decreases fields, 1
  {
    var os := LargestFields(fields);
    v := Object(os);
    FullObjectOk(fields, os);
    FullObject(fields, os);
  }

  lemma {:induction false} FullObjectOk(fields: seq<Field>, os: seq<Option<Value>>)
    requires var ty := Struct(fields); Wf(ty) && Good(ty) && |os| == |fields|
    requires forall i :: 0 <= i < |fields| ==> os[i].Some? && Tightest(fields[i].ty, os[i].value)
    ensures Encodable(Struct(fields), Object(os)) && Meets(Struct(fields), Object(os))
  {
    hide SizeOf, Attains, Enc;
    forall i | 0 <= i < |fields|
      ensures FieldTyped(fields[i], os[i]) && FieldMeets(fields[i], os[i], true) && FieldMeets(fields[i], os[i], false)
    {
      FullFieldOk(fields[i], os[i]);
    }
    assert Typed(Struct(fields), Object(os));
  }

  lemma {:induction false} FullFieldOk(field: Field, o: Option<Value>)
    requires o.Some? && Encodable(field.ty, o.value) && Meets(field.ty, o.value)
    ensures FieldTyped(field, o) && FieldMeets(field, o, true) && FieldMeets(field, o, false)
  {
  }

  lemma {:induction false} FullObject(fields: seq<Field>, os: seq<Option<Value>>)
    requires Encodable(Struct(fields), Object(os))
    requires forall i :: 0 <= i < |fields| ==> os[i].Some? && Tightest(fields[i].ty, os[i].value)
    ensures Attains(SizeOf(Struct(fields)).Max(), |Enc(Struct(fields), Object(os))|)
  {
    var ms, ps := Members(fields), Parts(fields, os);
    forall i | 0 <= i < |ms| ensures FullPart(ms[i], ps[i]) {
      FullField(fields[i], os[i]);
    }
    AssembledSize(ms, ps);
    FullOptionals(ms, ps);
    FullChunks(ms, ps);
  }

  lemma {:induction false} FullField(field: Field, o: Option<Value>)
    requires Wf(field.ty) && Good(field.ty) && !field.ty.Pair? && FieldTyped(field, o) && FieldMeets(field, o, false)
    requires o.Some? && Tightest(field.ty, o.value)
    ensures FullPart(MemberOf(field), PartOf(field, o))
  {
  }

  // ----- unions

  /** The variant that the union's maximum comes from. */
  lemma {:induction false} LargestIndex(variants: seq<Variant>) returns (i: nat)
    requires variants != [] && forall j :: 0 <= j < |variants| && variants[j].Data? ==> Wf(variants[j].ty)
    ensures i < |variants| && VariantMax(variants[i]) == LargestVariant(variants)
  {
    var n := |variants| - 1;
    if n == 0 {
      assert LargestVariant(variants[..0]) == Some(0);
      i := 0;
    } else {
      var rest := LargestIndex(variants[..n]);
      i := if LargestVariant(variants) == VariantMax(variants[n]) then n else rest;
    }
  }

  lemma {:induction false} LargestData(variant: Variant) returns (o: Option<Value>)
    requires variant.Data? ==> Wf(variant.ty) && Good(variant.ty) && Ample(variant.ty)
    ensures o.Some? <==> variant.Data?
    ensures o.Some? ==> Tightest(variant.ty, o.value)
    decreases variant
  {
    if variant.Unit? {
      o := None;
    } else {
      var v := Largest(variant.ty);
      o := Some(v);
    }
  }

  lemma {:induction false} LargestUnion(variants: seq<Variant>) returns (v: Value)
    requires var ty := Union(variants); Wf(ty) && Good(ty) && Ample(ty)
    ensures Tightest(Union(variants), v)
    decreases variants
  {
    var i := LargestIndex(variants);
    var o := LargestData(variants[i]);
    v := Choice(i, o);
    LargestChoice(variants, i, o);
  }

  lemma {:induction false} LargestChoice(variants: seq<Variant>, i: nat, o: Option<Value>)
    requires var ty := Union(variants); Wf(ty) && Good(ty) && i < |variants|
    requires VariantMax(variants[i]) == LargestVariant(variants)
    requires o.Some? <==> variants[i].Data?
    requires o.Some? ==> Tightest(variants[i].ty, o.value)
    ensures Tightest(Union(variants), Choice(i, o))
  {
    var ty, v, variant := Union(variants), Choice(i, o), variants[i];
    FullVariantOk(variant, o);
    assert Typed(ty, v) && Meets(ty, v) && Encodable(ty, v);
    assert Enc(ty, v) == Le(TagWidth(|variants|), i + 1) + VariantBytes(variant, o);
    assert Attains(VariantMax(variant), |VariantBytes(variant, o)|);
  }

  lemma {:induction false} FullVariantOk(variant: Variant, o: Option<Value>)
    requires o.Some? <==> variant.Data?
    requires o.Some? ==> Encodable(variant.ty, o.value) && Meets(variant.ty, o.value)
    ensures VariantTyped(variant, o) && VariantMeets(variant, o, true) && VariantMeets(variant, o, false)
  {
  }

  // ----- what that says of the sizes

  /** A collection that may hold nothing of its unbounded items takes one byte, and is taken for unbounded. */
  lemma {:induction false} CollectionMaxExactly(ty: Type)
    requires ty.Collection? && Wf(ty) && Good(ty) && Ample(ty.element)
    ensures EmptyOverUnbounded(ty.element, ty.lengths)
        <==> SizeOf(ty).Max().None? && forall v :: Encodable(ty, v) ==> |Enc(ty, v)| <= 1
  {
    if EmptyOverUnbounded(ty.element, ty.lengths) {
      forall v | Encodable(ty, v) ensures |Enc(ty, v)| <= 1 {
        NothingHeld(ty, v);
      }
    } else {
      hide SizeOf, Enc, Wf, Good, Typed, Checks;
      assert Ample(ty);
      var v := Largest(ty);
    }
  }

  lemma {:induction false} NothingHeld(ty: Type, v: Value)
    requires ty.Collection? && Encodable(ty, v) && EmptyOverUnbounded(ty.element, ty.lengths)
    ensures |Enc(ty, v)| == 1
  {
    PrefixedEnc(ty, v);
  }

  /** Below the message size, the maximum of a type is the size of its largest encoding, no less and no more. */
  lemma {:induction false} MaxExactly(ty: Type, n: nat)
    requires Wf(ty) && Good(ty) && Ample(ty) && n < MAX_SIZE
    ensures (SizeOf(ty).Max().Some? && SizeOf(ty).Max().value <= n)
        <==> forall v :: Encodable(ty, v) && Meets(ty, v) ==> |Enc(ty, v)| <= n
  {
    hide SizeOf, Enc, Wf, Good, Ample, Typed, Checks;
    forall v | Encodable(ty, v) ensures Within(SizeOf(ty), |Enc(ty, v)|) {
      EncodingMax(ty, v);
    }
    var v := Largest(ty);
  }
}
