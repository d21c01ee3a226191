/** Whatever the encoder writes for a value meeting its constraints is accepted and read back. */
module RoundTrips {
  import opened Wrappers
  import opened Bytes
  import opened Layouts
  import opened Objects
  import opened Sequences
  import opened Scalars
  import opened Types
  import opened Codec

  // ----- the encoder's checks are among the constraints

  lemma {:induction false} FieldMeetsChecked(field: Field, o: Option<Value>)
    requires Wf(field.ty) && FieldTyped(field, o) && FieldMeets(field, o, true)
    ensures FieldMeets(field, o, false)
    decreases field
  {
    if o.Some? {
      MeetsChecked(field.ty, o.value);
    }
  }

  lemma {:induction false} VariantMeetsChecked(variant: Variant, o: Option<Value>)
    requires (variant.Data? ==> Wf(variant.ty)) && VariantTyped(variant, o) && VariantMeets(variant, o, true)
    ensures VariantMeets(variant, o, false)
    decreases variant
  {
    if o.Some? {
      MeetsChecked(variant.ty, o.value);
    }
  }

  lemma {:induction false} MeetsChecked(ty: Type, v: Value)
    requires Wf(ty) && Typed(ty, v) && Meets(ty, v)
    ensures Checked(ty, v)
    decreases ty
  {
    match ty {
      case Atomic(_) =>
      case Blob(_, _) =>
      case Array(item, _) =>
        forall i | 0 <= i < |v.items| ensures Checks(item, v.items[i], false) {
          MeetsChecked(item, v.items[i]);
        }
      case Collection(_, element, _) =>
        forall i | 0 <= i < |v.items| ensures Checks(element, v.items[i], false) {
          MeetsChecked(element, v.items[i]);
        }
      case Pair(key, value) =>
        MeetsChecked(key, v.key);
        MeetsChecked(value, v.value);
      case Newtype(target) => MeetsChecked(target, v.inner);
      case Struct(fields) =>
        forall i | 0 <= i < |fields| ensures FieldMeets(fields[i], v.fields[i], false) {
          FieldMeetsChecked(fields[i], v.fields[i]);
        }
      case Union(variants) => VariantMeetsChecked(variants[v.index], v.data);
    }
  }

  // ----- a fixed-size encoding has no count, prefix, or boundary

  lemma {:induction false} FieldFixedFits(field: Field, o: Option<Value>)
    requires Wf(field.ty) && Good(field.ty) && FieldTyped(field, o) && FieldMeets(field, o, false)
    requires SizeOf(field.ty).Fixed?
    ensures FieldFits(field, o)
    decreases field
  {
    if o.Some? {
      FixedFits(field.ty, o.value);
    }
  }

  lemma {:induction false} FixedFits(ty: Type, v: Value)
    requires Encodable(ty, v) && SizeOf(ty).Fixed?
    ensures Fits(ty, v)
    decreases ty
  {
    match ty {
      case Atomic(_) =>
      case Blob(_, _) =>
      case Array(item, _) =>
        forall i | 0 <= i < |v.items| ensures Fits(item, v.items[i]) {
          FixedFits(item, v.items[i]);
        }
      case Pair(key, value) =>
        PairFixed(key, value);
        FixedFits(key, v.key);
        FixedFits(value, v.value);
      case Newtype(target) => FixedFits(target, v.inner);
      case Struct(fields) => StructFixedFits(fields, v);
    }
  }

  lemma {:induction false} StructFixedFits(fields: seq<Field>, v: Value)
    requires Encodable(Struct(fields), v) && SizeOf(Struct(fields)).Fixed?
    ensures Fits(Struct(fields), v)
    decreases fields
  {
    var ms := Members(fields);
    FixedHead(ms);
    forall i | 0 <= i < |fields| ensures FieldFits(fields[i], v.fields[i]) {
      assert ms[i] == MemberOf(fields[i]) && !ms[i].IsVar();
      if IsFlag(fields[i].ty) {
        FlagFixed(fields[i].ty);
      }
      FieldFixedFits(fields[i], v.fields[i]);
    }
  }

  /** A `bool` outside a bitmap takes a byte. */
  lemma {:induction false} FlagFixed(ty: Type)
    requires Wf(ty) && IsFlag(ty)
    ensures SizeOf(ty) == Fixed(1)
  {
    if ty.Newtype? {
      FlagFixed(ty.target);
    }
  }

  // ----- the round trip

  lemma {:induction false} FlagRoundTrip(ty: Type, v: Value)
    requires Wf(ty) && IsFlag(ty) && Typed(ty, v)
    ensures BitValue(ty, FlagOf(ty, v)) == v
    decreases ty
  {
    if ty.Newtype? {
      FlagRoundTrip(ty.target, v.inner);
    }
  }

  lemma {:induction false} FieldRoundTrip(field: Field, o: Option<Value>)
    requires Wf(field.ty) && Good(field.ty) && !field.ty.Pair?
    requires FieldTyped(field, o) && FieldMeets(field, o, true) && FieldMeets(field, o, false) && FieldFits(field, o)
    ensures FieldValid(field, PartOf(field, o)) && ReadField(field, PartOf(field, o)) == o
    decreases field
  {
    if o.Some? {
      if IsFlag(field.ty) {
        FlagRoundTrip(field.ty, o.value);
      } else {
        RoundTrip(field.ty, o.value);
      }
    }
  }

  lemma {:induction false} VariantRoundTrip(variant: Variant, o: Option<Value>)
    requires variant.Data? ==> Wf(variant.ty) && Good(variant.ty)
    requires VariantTyped(variant, o) && VariantMeets(variant, o, true) && VariantMeets(variant, o, false)
    requires VariantFits(variant, o)
    ensures VariantValid(variant, VariantBytes(variant, o)) && ReadVariant(variant, VariantBytes(variant, o)) == o
    decreases variant
  {
    if o.Some? {
      RoundTrip(variant.ty, o.value);
    }
  }

  lemma {:induction false} AllRoundTrip(ty: Type, vs: seq<Value>)
    requires Wf(ty) && Good(ty)
    requires forall i :: 0 <= i < |vs| ==> Encodable(ty, vs[i]) && Meets(ty, vs[i]) && Fits(ty, vs[i])
    ensures AllValid(ty, EncAll(ty, vs)) && ReadAll(ty, EncAll(ty, vs)) == vs
    decreases ty, 2
  {
    forall i | 0 <= i < |vs| ensures Valid(ty, Enc(ty, vs[i])) && Read(ty, Enc(ty, vs[i])) == vs[i] {
      RoundTrip(ty, vs[i]);
    }
  }

  /** Validation accepts the encoding of a value meeting its constraints, and it reads back. */
  lemma {:induction false} RoundTrip(ty: Type, v: Value)
    requires Encodable(ty, v) && Meets(ty, v) && Fits(ty, v)
    ensures Valid(ty, Enc(ty, v)) && Read(ty, Enc(ty, v)) == v
    decreases ty, 1
  {
    hide SizeOf, SequenceOf, Assemble, ObjectValid, Extract, BoundariesFit, Chunks, SplitItems, JoinItems, Le, Pow256, ReadLen;
    match ty {
      case Atomic(s) => AtomRoundTrip(s, v.atom);
      case Blob(_, _) =>
      case Array(item, count) => ArrayRoundTrip(item, count, v);
      case Collection(_, _, _) => CollectionRoundTrip(ty, v);
      case Pair(key, value) => PairRoundTrip(key, value, v);
      case Newtype(target) => RoundTrip(target, v.inner);
      case Struct(fields) => StructRoundTrip(fields, v);
      case Union(variants) => UnionRoundTrip(variants, v);
    }
  }

  lemma {:induction false} ArrayRoundTrip(item: Type, count: nat, v: Value)
    requires Encodable(Array(item, count), v) && Meets(Array(item, count), v) && Fits(Array(item, count), v)
    ensures Valid(Array(item, count), Enc(Array(item, count), v))
    ensures Read(Array(item, count), Enc(Array(item, count), v)) == v
    decreases item, 3
  {
    hide Chunks, Flat, Times;
    var items, size := EncAll(item, v.items), SizeOf(item).bytes;
    ChunksOfFlat(items, size);
    if count > 0 {
      AllRoundTrip(item, v.items);
    }
  }

  lemma {:induction false} CollectionRoundTrip(ty: Type, v: Value)
    requires ty.Collection? && Encodable(ty, v) && Meets(ty, v) && Fits(ty, v)
    ensures Valid(ty, Enc(ty, v)) && Read(ty, Enc(ty, v)) == v
    decreases ty.element, 4
  {
    match SequenceOf(SizeOf(ty.element), ty.lengths) {
      case Packed(_) => PackedRoundTrip(ty, v);
      case Counted(_) => CountedRoundTrip(ty, v);
      case Prefixed(_, _) => PrefixedRoundTrip(ty, v);
    }
  }

  lemma {:induction false} PackedRoundTrip(ty: Type, v: Value)
    requires ty.Collection? && Encodable(ty, v) && Meets(ty, v) && Fits(ty, v)
    requires SequenceOf(SizeOf(ty.element), ty.lengths).Packed?
    ensures Valid(ty, Enc(ty, v)) && Read(ty, Enc(ty, v)) == v
    decreases ty.element, 3
  {
    hide Chunks, Flat, Times;
    var items, size := EncAll(ty.element, v.items), SizeOf(ty.element).bytes;
    ChunksOfFlat(items, size);
    CountOfTimes(|items|, size);
    AllRoundTrip(ty.element, v.items);
  }

  /** `read_len` reads what the writer's `len` wrote. */
  lemma {:induction false} CountReads(n: nat, w: nat, rest: seq<byte>)
    requires w in {1, 2} && n < Pow256(w)
    ensures ReadLen(Le(w, n) + rest, w) == n && (Le(w, n) + rest)[w..] == rest
  {
  }

  lemma {:induction false} CountedRoundTrip(ty: Type, v: Value)
    requires ty.Collection? && Encodable(ty, v) && Meets(ty, v) && Fits(ty, v)
    requires SequenceOf(SizeOf(ty.element), ty.lengths).Counted?
    ensures Valid(ty, Enc(ty, v)) && Read(ty, Enc(ty, v)) == v
    decreases ty.element, 3
  {
    hide Le, Pow256, ReadLen, Chunks, SplitItems, JoinItems, Assemble, ObjectValid, Extract, BoundariesFit;
    var w, element := LengthWidth(BoundOption(ty.lengths.max)), ty.element;
    CountWidth(ty.lengths);
    CountReads(|v.items|, w, []);
    assert Le(w, |v.items|) + [] == Le(w, |v.items|);
    EmptyValid(element);
    forall i | 0 <= i < |v.items| ensures v.items[i] == Read(element, []) {
      MeetsChecked(element, v.items[i]);
      FixedFits(element, v.items[i]);
      RoundTrip(element, v.items[i]);
      assert Enc(element, v.items[i]) == [];
    }
  }

  lemma {:induction false} PrefixedRoundTrip(ty: Type, v: Value)
    requires ty.Collection? && Encodable(ty, v) && Meets(ty, v) && Fits(ty, v)
    requires SequenceOf(SizeOf(ty.element), ty.lengths).Prefixed?
    ensures Valid(ty, Enc(ty, v)) && Read(ty, Enc(ty, v)) == v
    decreases ty.element, 3
  {
    hide Le, Pow256, ReadLen, SplitItems, JoinItems, Assemble, ObjectValid, Extract, BoundariesFit;
    var items, s := EncAll(ty.element, v.items), SequenceOf(SizeOf(ty.element), ty.lengths);
    CountWidth(ty.lengths);
    PrefixWidth(ty.element);
    CountReads(|items|, s.count, JoinItems(items, s.prefix));
    SplitJoined(items, s.prefix);
    AllRoundTrip(ty.element, v.items);
  }

  lemma {:induction false} PairRoundTrip(key: Type, value: Type, v: Value)
    requires Encodable(Pair(key, value), v) && Meets(Pair(key, value), v) && Fits(Pair(key, value), v)
    ensures Valid(Pair(key, value), Enc(Pair(key, value), v)) && Read(Pair(key, value), Enc(Pair(key, value), v)) == v
    decreases Pair(key, value), 0
  {
    hide SizeOf, Assemble, ObjectValid, Extract, BoundariesFit, Chunks, SplitItems, JoinItems;
    var k, x := Enc(key, v.key), Enc(value, v.value);
    RoundTrip(key, v.key);
    RoundTrip(value, v.value);
    assert (k + x)[..|k|] == k && (k + x)[|k|..] == x;
  }

  lemma {:induction false} StructRoundTrip(fields: seq<Field>, v: Value)
    requires Encodable(Struct(fields), v) && Meets(Struct(fields), v) && Fits(Struct(fields), v)
    ensures Valid(Struct(fields), Enc(Struct(fields), v)) && Read(Struct(fields), Enc(Struct(fields), v)) == v
    decreases fields
  {
    hide Assemble, ObjectValid, Extract, BoundariesFit, SizeOf, PartFits;
    var ms, ps := Members(fields), Parts(fields, v.fields);
    AssembledValid(ms, ps);
    forall i | 0 <= i < |fields|
      ensures Extract(ms, Assemble(ms, ps), i) == ps[i] == PartOf(fields[i], v.fields[i])
      ensures FieldValid(fields[i], ps[i]) && ReadField(fields[i], ps[i]) == v.fields[i]
    {
      hide Typed, Checks, Fits, Enc, Read, Valid, PartOf, FieldValid, ReadField, FieldTyped, FieldMeets, FieldFits, Good, Wf;
      ExtractAssembled(ms, ps, i);
      FieldRoundTrip(fields[i], v.fields[i]);
    }
    ReadAssembled(fields, v.fields, Assemble(ms, ps), ps);
  }

  /** An object each of whose parts reads as its field does is the value of the fields. */
  lemma {:induction false} ReadAssembled(fields: seq<Field>, os: seq<Option<Value>>, b: seq<byte>, ps: seq<Part>)
    requires Wf(Struct(fields)) && Good(Struct(fields)) && ObjectValid(Members(fields), b) && PartsFit(Members(fields), ps)
    requires |os| == |fields| == |ps|
    requires forall i :: 0 <= i < |fields| ==>
               && Extract(Members(fields), b, i) == ps[i]
               && FieldValid(fields[i], ps[i]) && ReadField(fields[i], ps[i]) == os[i]
    ensures Valid(Struct(fields), b) && Read(Struct(fields), b) == Object(os)
  {
    hide ObjectValid, Extract, SizeOf, PartFits, FieldValid, ReadField;
    assert Read(Struct(fields), b).fields == os;
  }

  lemma {:induction false} UnionRoundTrip(variants: seq<Variant>, v: Value)
    requires Encodable(Union(variants), v) && Meets(Union(variants), v) && Fits(Union(variants), v)
    ensures Valid(Union(variants), Enc(Union(variants), v)) && Read(Union(variants), Enc(Union(variants), v)) == v
    decreases variants
  {
    hide Le, Pow256, ReadLen, TagWidth, VariantValid, VariantMeets, VariantFits, VariantBytes, VariantTyped, SizeOf, ReadVariant;
    TagTwoBytes(|variants|);
    var w, data := TagWidth(|variants|), VariantBytes(variants[v.index], v.data);
    CountReads(v.index + 1, w, data);
    VariantRoundTrip(variants[v.index], v.data);
  }
}
