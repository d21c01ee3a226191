/**
 Sizes are sound: no encoding exceeds the maximum the layout computed, and within the message
 size no count, length prefix, or boundary can fail to fit the width the layout chose.
 */
module SizeBounds {
  import opened Wrappers
  import opened Bytes
  import opened Layouts
  import opened Objects
  import opened Sequences
  import opened Types
  import opened Codec

  // ----- the sections of an object

  lemma {:induction false} OptionalSectionMax(ms: seq<Member>, ps: seq<Part>)
    requires PartsFit(ms, ps)
    ensures |Flat(OptionalPieces(ms, ps))| <= OptionalBytes(ms)
  {
    if ms != [] {
      var n := |ms| - 1;
      OptionalSectionMax(ms[..n], ps[..n]);
      assert OptionalPieces(ms, ps)[..n] == OptionalPieces(ms[..n], ps[..n]);
    }
  }

  /** No chunk of the var section exceeds its field's maximum. */
  predicate ChunksWithin(ms: seq<Member>, ps: seq<Part>)
    requires |ms| == |ps|
  {
    forall i :: 0 <= i < |ms| && ms[i].IsVar() && ms[i].size.max.Some? ==> |ChunkBytes(ps[i])| <= ms[i].size.max.value
  }

  lemma {:induction false} VarSectionMax(ms: seq<Member>, ps: seq<Part>)
    requires |ms| == |ps| && ChunksWithin(ms, ps) && VarMax(ms).Some?
    ensures |Flat(VarChunks(ms, ps))| <= VarMax(ms).value
  {
    if ms != [] {
      var n := |ms| - 1;
      VarSectionMax(ms[..n], ps[..n]);
      if ms[n].IsVar() {
        assert VarChunks(ms, ps)[..Vars(ms) - 1] == VarChunks(ms[..n], ps[..n]);
      } else {
        assert VarChunks(ms, ps) == VarChunks(ms[..n], ps[..n]);
      }
    }
  }

  /** An object within its fields' maxima is within its own. */
  lemma {:induction false} ObjectMax(ms: seq<Member>, ps: seq<Part>)
    requires PartsFit(ms, ps) && ChunksWithin(ms, ps) && VarMax(ms).Some?
    ensures |Assemble(ms, ps)| <= Head(ms) + OptionalBytes(ms) + VarMax(ms).value
  {
    AssembledSize(ms, ps);
    OptionalSectionMax(ms, ps);
    VarSectionMax(ms, ps);
  }

  /**
   Boundaries fit an object within the message size: two-byte ones because it is, and one-byte
   ones because the layout chose them only when the whole object is at most 255 bytes.
   */
  lemma {:induction false} BoundariesHold(ms: seq<Member>, ps: seq<Part>)
    requires PartsFit(ms, ps) && ChunksWithin(ms, ps) && |Assemble(ms, ps)| <= MAX_SIZE
    ensures BoundariesFit(ms, ps)
  {
    hide Assemble;
    PowValues();
    AssembledSize(ms, ps);
    if BoundaryWidth(ms) == 1 {
      TimesIsProduct(BoundaryCount(ms), 1);
      ObjectMax(ms, ps);
      assert |Assemble(ms, ps)| <= 0xff;
    }
    forall k | 0 <= k < BoundaryCount(ms)
      ensures EndOf(VarStart(ms, ps), VarChunks(ms, ps), k) < Pow256(BoundaryWidth(ms))
    {
      FlatPrefix(VarChunks(ms, ps), k + 1);
    }
  }

  // ----- no encoding exceeds its type's maximum

  predicate Within(size: Size, length: nat) {
    size.Max().Some? ==> length <= size.Max().value
  }

  lemma {:induction false} SumWithin(items: seq<seq<byte>>, max: nat)
    requires forall i :: 0 <= i < |items| ==> |items[i]| <= max
    ensures SumOf(items) <= |items| * max
  {
    if items != [] {
      SumWithin(items[1..], max);
      assert |items| * max == (|items| - 1) * max + max;
    }
  }

  lemma {:induction false} ProductMonotone(m: nat, n: nat, k: nat)
    requires m <= n
    ensures m * k <= n * k
  {
  }

  lemma {:induction false} FieldMax(field: Field, o: Option<Value>)
    requires Wf(field.ty) && Good(field.ty) && !field.ty.Pair? && FieldTyped(field, o) && FieldMeets(field, o, false)
    ensures !IsFlag(field.ty) ==> Within(SizeOf(field.ty), |ChunkBytes(PartOf(field, o))|)
    decreases field
  {
    if o.Some? {
      EncodingMax(field.ty, o.value);
    }
  }

  lemma {:induction false} VariantDataMax(variant: Variant, o: Option<Value>)
    requires variant.Data? ==> Wf(variant.ty) && Good(variant.ty)
    requires VariantTyped(variant, o) && VariantMeets(variant, o, false)
    ensures VariantMax(variant).Some? ==> |VariantBytes(variant, o)| <= VariantMax(variant).value
    decreases variant
  {
    if o.Some? {
      EncodingMax(variant.ty, o.value);
    }
  }

  lemma {:induction false} LargestIsMax(variants: seq<Variant>, i: nat)
    requires i < |variants| && forall j :: 0 <= j < |variants| && variants[j].Data? ==> Wf(variants[j].ty)
    ensures LargestVariant(variants).Some? ==>
              VariantMax(variants[i]).Some? && VariantMax(variants[i]).value <= LargestVariant(variants).value
  {
    var n := |variants| - 1;
    if i < n {
      LargestIsMax(variants[..n], i);
    }
  }

  /** An encoding is never larger than the maximum the compiler computed for its type. */
  lemma {:induction false} EncodingMax(ty: Type, v: Value)
    requires Encodable(ty, v)
    ensures Within(SizeOf(ty), |Enc(ty, v)|)
    decreases ty, 1
  {
    hide Assemble, JoinItems, Le, Flat, Pow256, BoundariesFit;
    match ty {
      case Atomic(_) =>
      case Blob(_, _) =>
      case Array(_, _) =>
      case Collection(_, element, lengths) =>
        var s := SequenceOf(SizeOf(element), lengths);
        if s.Packed? {
          PackedMax(ty, v);
        } else if s.Prefixed? {
          PrefixedMax(ty, v);
        }
      case Pair(key, value) =>
        EncodingMax(key, v.key);
        EncodingMax(value, v.value);
      case Newtype(target) => EncodingMax(target, v.inner);
      case Struct(fields) => StructMax(fields, v);
      case Union(variants) => UnionMax(variants, v);
    }
  }

  lemma {:induction false} PackedMax(ty: Type, v: Value)
    requires ty.Collection? && Encodable(ty, v) && SequenceOf(SizeOf(ty.element), ty.lengths).Packed?
    ensures Within(SizeOf(ty), |Enc(ty, v)|)
  {
    var items, size := EncAll(ty.element, v.items), SizeOf(ty.element).bytes;
    FlatSize(items, size);
    TimesIsProduct(|items|, size);
    if ty.lengths.max.Some? {
      ProductMonotone(|items|, ty.lengths.max.value, size);
    }
  }

  /** The most bytes of `n` items of at most `max`, with a prefix of `w` before each but the last. */
  function ItemsMax(n: nat, max: nat, w: nat): nat {
    n * max + (if n == 0 then 0 else n - 1) * w
  }

  lemma {:induction false} JoinedMax(items: seq<seq<byte>>, w: nat, max: nat, n: nat)
    requires |items| <= n && forall i :: 0 <= i < |items| ==> |items[i]| <= max
    ensures |JoinItems(items, w)| <= ItemsMax(n, max, w)
  {
    JoinedSize(items, w);
    SumWithin(items, max);
    ProductMonotone(|items|, n, max);
    var m, k := if items == [] then 0 else |items| - 1, if n == 0 then 0 else n - 1;
    TimesIsProduct(m, w);
    ProductMonotone(m, k, w);
  }

  /** The maximum of a prefixed collection, from those of its number and its items. */
  lemma {:induction false} PrefixedSize(ty: Type)
    requires ty.Collection? && Wf(ty) && SequenceOf(SizeOf(ty.element), ty.lengths).Prefixed? && SizeOf(ty).Max().Some?
    ensures ty.lengths.max.Some? && SizeOf(ty.element).Max().Some? && SizeOf(ty).Var?
    ensures var s, n := SequenceOf(SizeOf(ty.element), ty.lengths), ty.lengths.max.value;
            SizeOf(ty).Max().value == s.count + ItemsMax(n, SizeOf(ty.element).Max().value, s.prefix)
  {
  }

  lemma {:induction false} PrefixedEnc(ty: Type, v: Value)
    requires ty.Collection? && Encodable(ty, v) && SequenceOf(SizeOf(ty.element), ty.lengths).Prefixed?
    ensures SizeOf(ty).Var? && v.Items? && (forall i :: 0 <= i < |v.items| ==> Encodable(ty.element, v.items[i]))
    ensures var s := SequenceOf(SizeOf(ty.element), ty.lengths);
            |Enc(ty, v)| == s.count + |JoinItems(EncAll(ty.element, v.items), s.prefix)|
    ensures ty.lengths.max.Some? ==> |v.items| <= ty.lengths.max.value
  {
  }

  lemma {:induction false} PrefixedMax(ty: Type, v: Value)
    requires ty.Collection? && Encodable(ty, v) && SequenceOf(SizeOf(ty.element), ty.lengths).Prefixed?
    ensures Within(SizeOf(ty), |Enc(ty, v)|)
    decreases ty.element, 2
  {
    var items, s := EncAll(ty.element, v.items), SequenceOf(SizeOf(ty.element), ty.lengths);
    PrefixedEnc(ty, v);
    if SizeOf(ty).Max().Some? {
      PrefixedSize(ty);
      var max, n := SizeOf(ty.element).Max().value, ty.lengths.max.value;
      hide Enc, SizeOf, Checks, Typed, Wf, Good, Le, JoinItems, ItemsMax;
      forall i | 0 <= i < |items| ensures |items[i]| <= max {
        EncodingMax(ty.element, v.items[i]);
      }
      JoinedMax(items, s.prefix, max, n);
    }
  }

  lemma {:induction false} StructChunksWithin(fields: seq<Field>, v: Value)
    requires Encodable(Struct(fields), v)
    ensures ChunksWithin(Members(fields), Parts(fields, v.fields))
    decreases fields, 0
  {
    var ms, ps := Members(fields), Parts(fields, v.fields);
    forall i | 0 <= i < |fields| && ms[i].IsVar() && ms[i].size.max.Some?
      ensures |ChunkBytes(ps[i])| <= ms[i].size.max.value
    {
      FieldMax(fields[i], v.fields[i]);
    }
  }

  lemma {:induction false} StructMax(fields: seq<Field>, v: Value)
    requires Encodable(Struct(fields), v)
    ensures Within(SizeOf(Struct(fields)), |Enc(Struct(fields), v)|)
    decreases fields, 1
  {
    var ms, ps := Members(fields), Parts(fields, v.fields);
    StructChunksWithin(fields, v);
    if ObjectSize(ms).Var? && ObjectSize(ms).max.Some? {
      ObjectMax(ms, ps);
    }
  }

  lemma {:induction false} UnionMax(variants: seq<Variant>, v: Value)
    requires Encodable(Union(variants), v)
    ensures Within(SizeOf(Union(variants)), |Enc(Union(variants), v)|)
    decreases variants
  {
    VariantDataMax(variants[v.index], v.data);
    LargestIsMax(variants, v.index);
  }

  // ----- within the message size, everything fits its width

  predicate FieldCounts(field: Field, o: Option<Value>)
    requires Wf(field.ty) && FieldTyped(field, o)
    decreases field
  {
    o.Some? ==> CountsSmall(field.ty, o.value)
  }

  predicate VariantCounts(variant: Variant, o: Option<Value>)
    requires (variant.Data? ==> Wf(variant.ty)) && VariantTyped(variant, o)
    decreases variant
  {
    o.Some? ==> CountsSmall(variant.ty, o.value)
  }

  /** No collection of items of no size, the only ones the message size leaves unbounded, holds more than 65535. */
  predicate CountsSmall(ty: Type, v: Value)
    requires Wf(ty) && Typed(ty, v)
    decreases ty
  {
    match ty
    case Atomic(_) => true
    case Blob(_, _) => true
    case Array(item, _) => forall i :: 0 <= i < |v.items| ==> CountsSmall(item, v.items[i])
    case Collection(_, element, _) =>
      if SizeOf(element) == Fixed(0) then |v.items| <= MAX_SIZE
      else forall i :: 0 <= i < |v.items| ==> CountsSmall(element, v.items[i])
    case Pair(key, value) => CountsSmall(key, v.key) && CountsSmall(value, v.value)
    case Newtype(target) => CountsSmall(target, v.inner)
    case Struct(fields) => forall i :: 0 <= i < |fields| ==> FieldCounts(fields[i], v.fields[i])
    case Union(variants) => VariantCounts(variants[v.index], v.data)
  }

  lemma {:induction false} FlatWithin(items: seq<seq<byte>>, i: nat)
    requires i < |items|
    ensures |items[i]| <= |Flat(items)|
  {
    FlatPiece(items, i);
  }

  lemma {:induction false} FieldFitsWidths(field: Field, o: Option<Value>)
    requires Wf(field.ty) && Good(field.ty) && !field.ty.Pair? && FieldTyped(field, o) && FieldMeets(field, o, false)
    requires o.Some? ==> |Enc(field.ty, o.value)| <= MAX_SIZE
    ensures FieldCounts(field, o) <==> FieldFits(field, o)
    decreases field
  {
    if o.Some? {
      FitsWidths(field.ty, o.value);
    }
  }

  lemma {:induction false} VariantFitsWidths(variant: Variant, o: Option<Value>)
    requires variant.Data? ==> Wf(variant.ty) && Good(variant.ty)
    requires VariantTyped(variant, o) && VariantMeets(variant, o, false)
    requires |VariantBytes(variant, o)| <= MAX_SIZE
    ensures VariantCounts(variant, o) <==> VariantFits(variant, o)
    decreases variant
  {
    if o.Some? {
      FitsWidths(variant.ty, o.value);
    }
  }

  lemma {:induction false} AllFitWidths(ty: Type, vs: seq<Value>)
    requires Wf(ty) && forall i :: 0 <= i < |vs| ==> Encodable(ty, vs[i]) && |Enc(ty, vs[i])| <= MAX_SIZE
    ensures AllFit(ty, vs) <==> forall i :: 0 <= i < |vs| ==> CountsSmall(ty, vs[i])
    decreases ty, 2
  {
    forall i | 0 <= i < |vs| ensures CountsSmall(ty, vs[i]) <==> Fits(ty, vs[i]) {
      FitsWidths(ty, vs[i]);
    }
  }

  /**
   For a value whose encoding is within the message size, every count, prefix, and boundary fits
   its width exactly when the collections of items of no size are small.
   */
  lemma {:induction false} FitsWidths(ty: Type, v: Value)
    requires Encodable(ty, v) && |Enc(ty, v)| <= MAX_SIZE
    ensures CountsSmall(ty, v) <==> Fits(ty, v)
    decreases ty, 1
  {
    hide Assemble, JoinItems, Le, Flat, Pow256, BoundariesFit, SizeOf;
    match ty {
      case Atomic(_) =>
      case Blob(_, _) =>
      case Array(item, count) => ItemsFitWidths(item, v.items);
      case Collection(_, _, _) => CollectionFitsWidths(ty, v);
      case Pair(key, value) =>
        FitsWidths(key, v.key);
        FitsWidths(value, v.value);
      case Newtype(target) => FitsWidths(target, v.inner);
      case Struct(fields) => StructFitsWidths(fields, v);
      case Union(variants) => VariantFitsWidths(variants[v.index], v.data);
    }
  }

  lemma {:induction false} PackedLimits(ty: Type, v: Value)
    requires ty.Collection? && Encodable(ty, v) && SequenceOf(SizeOf(ty.element), ty.lengths).Packed?
    ensures v.Items? && Wf(ty.element) && (forall i :: 0 <= i < |v.items| ==> Encodable(ty.element, v.items[i]))
    ensures Enc(ty, v) == Flat(EncAll(ty.element, v.items)) && (Fits(ty, v) <==> AllFit(ty.element, v.items))
    ensures CountsSmall(ty, v) <==> forall i :: 0 <= i < |v.items| ==> CountsSmall(ty.element, v.items[i])
  {
    hide SizeOf, Flat;
  }

  lemma {:induction false} PackedFitsWidths(ty: Type, v: Value)
    requires ty.Collection? && Encodable(ty, v) && |Enc(ty, v)| <= MAX_SIZE
    requires SequenceOf(SizeOf(ty.element), ty.lengths).Packed?
    ensures CountsSmall(ty, v) <==> Fits(ty, v)
    decreases ty.element, 4
  {
    PackedLimits(ty, v);
    hide Fits, CountsSmall, Enc, SizeOf, Checks, Typed, Wf, Good, AllFit, EncAll, Flat;
    ItemsFitWidths(ty.element, v.items);
  }

  lemma {:induction false} CollectionFitsWidths(ty: Type, v: Value)
    requires ty.Collection? && Encodable(ty, v) && |Enc(ty, v)| <= MAX_SIZE
    ensures CountsSmall(ty, v) <==> Fits(ty, v)
    decreases ty.element, 5
  {
    var s := SequenceOf(SizeOf(ty.element), ty.lengths);
    if s.Packed? {
      PackedFitsWidths(ty, v);
    } else {
      hide Fits, CountsSmall, Enc, SizeOf;
      if s.Counted? {
        CountedFitsWidths(ty, v);
      } else {
        PrefixedFitsWidths(ty, v);
      }
    }
  }

  lemma {:induction false} ItemsFitWidths(item: Type, vs: seq<Value>)
    requires Wf(item) && forall i :: 0 <= i < |vs| ==> Encodable(item, vs[i])
    requires |Flat(EncAll(item, vs))| <= MAX_SIZE
    ensures AllFit(item, vs) <==> forall i :: 0 <= i < |vs| ==> CountsSmall(item, vs[i])
    decreases item, 3
  {
    forall i | 0 <= i < |vs| ensures |Enc(item, vs[i])| <= MAX_SIZE {
      FlatWithin(EncAll(item, vs), i);
    }
    AllFitWidths(item, vs);
  }

  /** A length within the constraint, or within the message size without one, fits its width. */
  lemma {:induction false} CountHolds(lengths: Lengths, n: nat)
    requires lengths.Wf() && lengths.Allows(n)
    ensures n <= MAX_SIZE <==> n < Pow256(LengthWidth(BoundOption(lengths.max)))
  {
    PowValues();
  }

  lemma {:induction false} CountedFitsWidths(ty: Type, v: Value)
    requires ty.Collection? && Encodable(ty, v) && SequenceOf(SizeOf(ty.element), ty.lengths).Counted?
    ensures CountsSmall(ty, v) <==> Fits(ty, v)
  {
    CountHolds(ty.lengths, |v.items|);
  }

  lemma {:induction false} JoinedCount(items: seq<seq<byte>>, w: nat)
    requires w >= 1
    ensures |items| <= |JoinItems(items, w)| + 1
  {
    JoinedSize(items, w);
    var n := if items == [] then 0 else |items| - 1;
    TimesIsProduct(n, w);
    ProductMonotone(1, w, n);
  }

  lemma {:induction false} PrefixesHold(element: Type, vs: seq<Value>, items: seq<seq<byte>>)
    requires Wf(element) && SizeOf(element).Var?
    requires forall i :: 0 <= i < |vs| ==> Encodable(element, vs[i])
    requires items == EncAll(element, vs) && forall i :: 0 <= i < |items| ==> |items[i]| <= MAX_SIZE
    ensures PrefixesFit(items, LengthWidth(SizeOf(element).max))
  {
    PrefixWidth(element);
    forall i | 0 <= i < |items| - 1 ensures |items[i]| < Pow256(LengthWidth(SizeOf(element).max)) {
      EncodingMax(element, vs[i]);
      LengthHolds(SizeOf(element).max, |items[i]|);
    }
  }

  lemma {:induction false} PrefixedLimits(ty: Type, v: Value)
    requires ty.Collection? && Encodable(ty, v) && SequenceOf(SizeOf(ty.element), ty.lengths).Prefixed?
    ensures v.Items? && ty.lengths.Allows(|v.items|) && ty.lengths.Wf() && Wf(ty.element) && SizeOf(ty.element).Var?
    ensures SequenceOf(SizeOf(ty.element), ty.lengths) ==
              Prefixed(LengthWidth(BoundOption(ty.lengths.max)), LengthWidth(SizeOf(ty.element).max))
    ensures (forall i :: 0 <= i < |v.items| ==> Encodable(ty.element, v.items[i]))
    ensures CountsSmall(ty, v) <==> forall i :: 0 <= i < |v.items| ==> CountsSmall(ty.element, v.items[i])
    ensures var s := SequenceOf(SizeOf(ty.element), ty.lengths);
            Fits(ty, v) <==>
              && |v.items| < Pow256(s.count) && PrefixesFit(EncAll(ty.element, v.items), s.prefix) && AllFit(ty.element, v.items)
  {
  }

  lemma {:induction false} PrefixedFitsWidths(ty: Type, v: Value)
    requires ty.Collection? && Encodable(ty, v) && |Enc(ty, v)| <= MAX_SIZE
    requires SequenceOf(SizeOf(ty.element), ty.lengths).Prefixed?
    ensures CountsSmall(ty, v) <==> Fits(ty, v)
    decreases ty.element, 3
  {
    var items, s := EncAll(ty.element, v.items), SequenceOf(SizeOf(ty.element), ty.lengths);
    PrefixedEnc(ty, v);
    PrefixedLimits(ty, v);
    hide Fits, CountsSmall, Enc, SizeOf, Checks, Typed, Wf, Good, Le, JoinItems, Pow256, PrefixesFit, AllFit, EncAll;
    forall i | 0 <= i < |items| ensures |items[i]| <= MAX_SIZE {
      ItemWithin(items, s.prefix, i);
    }
    JoinedCount(items, s.prefix);
    CountHolds(ty.lengths, |items|);
    PrefixesHold(ty.element, v.items, items);
    AllFitWidths(ty.element, v.items);
  }

  /** No part of an object is larger than the object. */
  lemma {:induction false} PartWithin(ms: seq<Member>, ps: seq<Part>, i: nat)
    requires PartsFit(ms, ps) && i < |ms|
    ensures !ms[i].flag ==> |PlainPiece(ms[i], ps[i])| + |ChunkBytes(ps[i])| <= |Assemble(ms, ps)|
  {
    hide Assemble;
    AssembledSize(ms, ps);
    if ms[i].IsAt() {
      PlainPieceAt(ms, ps, i);
      PlainSectionAt(ms, ps);
    } else if ms[i].IsOptional() {
      FlatWithin(OptionalPieces(ms, ps), i);
    } else if ms[i].IsVar() {
      VarChunkAt(ms, ps, i);
      FlatWithin(VarChunks(ms, ps), Vars(ms[..i]));
    }
  }

  lemma {:induction false} StructFieldFits(fields: seq<Field>, v: Value, i: nat)
    requires Encodable(Struct(fields), v) && |Enc(Struct(fields), v)| <= MAX_SIZE && i < |fields|
    ensures FieldCounts(fields[i], v.fields[i]) <==> FieldFits(fields[i], v.fields[i])
    decreases fields, 1
  {
    hide Assemble;
    var ms, ps := Members(fields), Parts(fields, v.fields);
    PartWithin(ms, ps, i);
    assert ps[i] == PartOf(fields[i], v.fields[i]) && ms[i] == MemberOf(fields[i]);
    assert Enc(Struct(fields), v) == Assemble(ms, ps);
    if IsFlag(fields[i].ty) {
      FlagFits(fields[i], v.fields[i]);
    } else {
      FieldFitsWidths(fields[i], v.fields[i]);
    }
  }

  lemma {:induction false} StructFitsWidths(fields: seq<Field>, v: Value)
    requires Encodable(Struct(fields), v) && |Enc(Struct(fields), v)| <= MAX_SIZE
    ensures CountsSmall(Struct(fields), v) <==> Fits(Struct(fields), v)
    decreases fields, 2
  {
    hide Assemble, BoundariesFit, FieldCounts, FieldFits;
    var ms, ps := Members(fields), Parts(fields, v.fields);
    StructChunksWithin(fields, v);
    BoundariesHold(ms, ps);
    forall i | 0 <= i < |fields| ensures FieldCounts(fields[i], v.fields[i]) <==> FieldFits(fields[i], v.fields[i]) {
      StructFieldFits(fields, v, i);
    }
  }

  lemma {:induction false} FlagFits(field: Field, o: Option<Value>)
    requires Wf(field.ty) && Good(field.ty) && !field.ty.Pair? && FieldTyped(field, o) && FieldMeets(field, o, false)
    requires IsFlag(field.ty)
    ensures FieldCounts(field, o) && FieldFits(field, o)
  {
    if o.Some? {
      FlagValueFits(field.ty, o.value);
    }
  }

  lemma {:induction false} FlagValueFits(ty: Type, v: Value)
    requires Encodable(ty, v) && IsFlag(ty)
    ensures CountsSmall(ty, v) && Fits(ty, v)
    decreases ty
  {
    if ty.Newtype? {
      FlagValueFits(ty.target, v.inner);
    }
  }
}
