/**
 `encoded_size`: the size of a value's encoding, computed without encoding it. Each method returns
 the number of bytes `Enc` describes.
 */
module EncodedSizes {
  import opened Wrappers
  import opened Bytes
  import opened Layouts
  import opened Objects
  import opened Sequences
  import opened Types
  import opened Codec

  /** The size of `v`, when the encoder takes it. */
  ghost predicate IsSize(size: nat, ty: Type, v: Value) {
    Encodable(ty, v) ==> size == |Enc(ty, v)|
  }

  /** What field `i` of an object adds to its size past the head. */
  ghost function FieldSize(field: Field, o: Option<Value>): nat
    requires Wf(field.ty) && Good(field.ty) && FieldTyped(field, o) && FieldMeets(field, o, false)
  {
    if o.None? || !(MemberOf(field).IsOptional() || MemberOf(field).IsVar()) then 0 else |Enc(field.ty, o.value)|
  }

  ghost predicate ObjectOk(fields: seq<Field>, os: seq<Option<Value>>) {
    Encodable(Struct(fields), Object(os))
  }

  /** What the first `n` fields add past the head. */
  ghost function SizeTo(fields: seq<Field>, os: seq<Option<Value>>, n: nat): nat
    requires ObjectOk(fields, os) && n <= |fields|
  {
    if n == 0 then 0 else SizeTo(fields, os, n - 1) + FieldSize(fields[n - 1], os[n - 1])
  }

  /** The sections past the head hold what the fields add. */
  lemma {:induction false} SizeToSections(fields: seq<Field>, os: seq<Option<Value>>, n: nat)
    requires ObjectOk(fields, os) && n <= |fields|
    ensures var ms, ps := Members(fields), Parts(fields, os);
            && Vars(ms[..n]) <= Vars(ms)
            && SizeTo(fields, os, n) == |Flat(OptionalPieces(ms, ps)[..n])| + |Flat(VarChunks(ms, ps)[..Vars(ms[..n])])|
  {
    hide SizeOf, Enc, FieldSize, VarChunks, PartOf, Flat, OptionalPieces, Vars, OptionalPiece;
    var ms, ps := Members(fields), Parts(fields, os);
    if n > 0 {
      SizeToSections(fields, os, n - 1);
      StepSections(ms, ps, n - 1);
      FieldSections(fields, os, n - 1);
    } else {
      assert ms[..0] == [];
      NoVarsYet();
      NoPieces(OptionalPieces(ms, ps));
      NoPieces(VarChunks(ms, ps));
    }
  }

  lemma {:induction false} StepSections(ms: seq<Member>, ps: seq<Part>, i: nat)
    requires PartsFit(ms, ps) && i < |ms|
    ensures Vars(ms[..i]) <= Vars(ms[..i + 1]) <= Vars(ms)
    ensures Flat(OptionalPieces(ms, ps)[..i + 1]) == Flat(OptionalPieces(ms, ps)[..i]) + OptionalPiece(ms[i], ps[i])
    ensures Flat(VarChunks(ms, ps)[..Vars(ms[..i + 1])])
         == Flat(VarChunks(ms, ps)[..Vars(ms[..i])]) + if ms[i].IsVar() then ChunkBytes(ps[i]) else []
  {
    hide VarChunks;
    SlotStep(ms, i);
    FlatStep(OptionalPieces(ms, ps), i);
    if ms[i].IsVar() {
      VarChunkAt(ms, ps, i);
      FlatStep(VarChunks(ms, ps), Vars(ms[..i]));
    }
  }

  lemma {:induction false} FieldSections(fields: seq<Field>, os: seq<Option<Value>>, i: nat)
    requires ObjectOk(fields, os) && i < |fields|
    ensures var m, p := Members(fields)[i], Parts(fields, os)[i];
            FieldSize(fields[i], os[i]) == |OptionalPiece(m, p)| + |if m.IsVar() then ChunkBytes(p) else []|
  {
    hide SizeOf;
  }

  /** The head and what every field adds make up the object. */
  lemma {:induction false} ObjectSizeIs(fields: seq<Field>, os: seq<Option<Value>>)
    requires ObjectOk(fields, os)
    ensures |Enc(Struct(fields), Object(os))| == Head(Members(fields)) + SizeTo(fields, os, |fields|)
  {
    hide SizeOf;
    var ms, ps := Members(fields), Parts(fields, os);
    SizeToSections(fields, os, |fields|);
    AssembledSize(ms, ps);
    assert ms[..|fields|] == ms && OptionalPieces(ms, ps)[..|fields|] == OptionalPieces(ms, ps);
    assert VarChunks(ms, ps)[..Vars(ms)] == VarChunks(ms, ps);
  }

  lemma {:induction false} FieldTypes(fields: seq<Field>, os: seq<Option<Value>>)
    requires Wf(Struct(fields)) && Good(Struct(fields)) && Typed(Struct(fields), Object(os))
    ensures |os| == |fields| && WfFields(fields)
    ensures forall i :: 0 <= i < |fields| ==> Wf(fields[i].ty) && Good(fields[i].ty) && FieldTyped(fields[i], os[i])
    ensures ObjectOk(fields, os) ==> forall i :: 0 <= i < |fields| ==> FieldMeets(fields[i], os[i], false)
  {
  }

  method ObjectSizeOf(fields: seq<Field>, os: seq<Option<Value>>) returns (size: nat)
    requires Wf(Struct(fields)) && Good(Struct(fields)) && Typed(Struct(fields), Object(os))
    ensures IsSize(size, Struct(fields), Object(os))
    decreases fields
  {
    hide Typed, Checks, Wf, Good, Enc, SizeOf, SizeTo;
    FieldTypes(fields, os);
    var ms := Members(fields);
    if ObjectSize(ms).Fixed? {
      FixedObjectIs(fields, os);
      return ObjectSize(ms).bytes;
    }
    size := Head(ms);
    ghost var ok := ObjectOk(fields, os);
    if ok {
      NothingYet(fields, os);
    }
    for i := 0 to |fields|
      invariant ok ==> size == Head(ms) + SizeTo(fields, os, i)
    {
      if os[i].Some? && (MemberOf(fields[i]).IsOptional() || MemberOf(fields[i]).IsVar()) {
        var add := ValueSize(fields[i].ty, os[i].value);
        size := size + add;
      }
      if ok {
        FieldAdds(fields, os, i);
      }
    }
    if ok {
      ObjectSizeIs(fields, os);
    }
  }

  lemma {:induction false} NothingYet(fields: seq<Field>, os: seq<Option<Value>>)
    requires ObjectOk(fields, os)
    ensures SizeTo(fields, os, 0) == 0
  {
  }

  lemma {:induction false} FieldAdds(fields: seq<Field>, os: seq<Option<Value>>, i: nat)
    requires ObjectOk(fields, os) && i < |fields|
    ensures Wf(fields[i].ty) && |os| == |fields| && (os[i].Some? ==> Encodable(fields[i].ty, os[i].value))
    ensures SizeTo(fields, os, i + 1) == SizeTo(fields, os, i)
              + if os[i].Some? && (MemberOf(fields[i]).IsOptional() || MemberOf(fields[i]).IsVar())
                then |Enc(fields[i].ty, os[i].value)| else 0
  {
    hide SizeOf;
    assert FieldTyped(fields[i], os[i]) && FieldMeets(fields[i], os[i], false);
  }

  lemma {:induction false} FixedSizeIs(ty: Type, v: Value)
    requires Wf(ty) && Good(ty) && Typed(ty, v) && SizeOf(ty).Fixed?
    ensures IsSize(SizeOf(ty).bytes, ty, v)
  {
    hide Wf, Good, Typed, Checks, SizeOf;
  }

  lemma {:induction false} FixedObjectIs(fields: seq<Field>, os: seq<Option<Value>>)
    requires Wf(Struct(fields)) && Good(Struct(fields)) && Typed(Struct(fields), Object(os)) && WfFields(fields)
    requires ObjectSize(Members(fields)).Fixed?
    ensures IsSize(ObjectSize(Members(fields)).bytes, Struct(fields), Object(os))
  {
    hide Wf, Good, Typed, Checks;
    FixedSizeIs(Struct(fields), Object(os));
  }

  // ----- prefixed items

  ghost predicate AllOk(ty: Type, vs: seq<Value>) {
    Wf(ty) && forall i :: 0 <= i < |vs| ==> Encodable(ty, vs[i])
  }

  /** The sizes of items, added up. */
  ghost function TotalTo(items: seq<seq<byte>>, n: nat): nat
    requires n <= |items|
  {
    if n == 0 then 0 else TotalTo(items, n - 1) + |items[n - 1]|
  }

  lemma {:induction false} TotalIsSum(items: seq<seq<byte>>, n: nat)
    requires 1 <= n <= |items|
    ensures TotalTo(items, n) == |items[0]| + TotalTo(items[1..], n - 1)
  {
    if n > 1 {
      TotalIsSum(items, n - 1);
    }
  }

  lemma {:induction false} SumIsTotal(items: seq<seq<byte>>)
    ensures SumOf(items) == TotalTo(items, |items|)
  {
    if items != [] {
      SumIsTotal(items[1..]);
      TotalIsSum(items, |items|);
    }
  }

  /** `prefixed_size`: the count, the items, and a prefix for each but the last. */
  method PrefixedSize(ty: Type, vs: seq<Value>, count: nat, prefix: nat) returns (size: nat)
    requires Wf(ty) && (vs != [] ==> Good(ty)) && forall i :: 0 <= i < |vs| ==> Typed(ty, vs[i])
    ensures AllOk(ty, vs) ==> size == count + |JoinItems(EncAll(ty, vs), prefix)|
    decreases ty, 1
  {
    hide Typed, Checks, Good, Enc, SizeOf, JoinItems;
    var total := 0;
    for i := 0 to |vs|
      invariant AllOk(ty, vs) ==> total == TotalTo(EncAll(ty, vs), i)
    {
      var add := ValueSize(ty, vs[i]);
      total := total + add;
    }
    size := count + total + (if |vs| == 0 then 0 else |vs| - 1) * prefix;
    if AllOk(ty, vs) {
      JoinedSize(EncAll(ty, vs), prefix);
      SumIsTotal(EncAll(ty, vs));
      TimesIsProduct(if |vs| == 0 then 0 else |vs| - 1, prefix);
    }
  }

  // ----- every type

  lemma {:induction false} CollectionParts(kind: CollectionKind, element: Type, lengths: Lengths, vs: seq<Value>)
    requires var ty := Collection(kind, element, lengths); Wf(ty) && Good(ty) && Typed(ty, Items(vs))
    ensures Wf(element) && Good(element) && forall i :: 0 <= i < |vs| ==> Typed(element, vs[i])
    ensures Encodable(Collection(kind, element, lengths), Items(vs)) && SizeOf(element) != Fixed(0) ==> AllOk(element, vs)
  {
  }

  method CollectionSize(kind: CollectionKind, element: Type, lengths: Lengths, vs: seq<Value>) returns (size: nat)
    requires var ty := Collection(kind, element, lengths); Wf(ty) && Good(ty) && Typed(ty, Items(vs))
    ensures IsSize(size, Collection(kind, element, lengths), Items(vs))
    decreases element, 2
  {
    hide Typed, Checks, Wf, Good, SizeOf;
    CollectionParts(kind, element, lengths, vs);
    match SequenceOf(SizeOf(element), lengths) {
      case Packed(item) =>
        size := |vs| * item;
        TimesIsProduct(|vs|, item);
        if AllOk(element, vs) {
          FlatSize(EncAll(element, vs), item);
        }
      case Counted(count) => size := count;
      case Prefixed(count, prefix) => size := PrefixedSize(element, vs, count, prefix);
    }
  }

  method VariantSize(variant: Variant, data: Option<Value>) returns (size: nat)
    requires VariantTyped(variant, data) && (variant.Data? ==> Wf(variant.ty) && Good(variant.ty))
    ensures VariantMeets(variant, data, false) ==> size == |VariantBytes(variant, data)|
    decreases variant
  {
    if data.Some? {
      size := ValueSize(variant.ty, data.value);
    } else {
      size := 0;
    }
  }

  /** The encoded size of a value; of a map's entry, its key's fixed size and its value's size. */
  method ValueSize(ty: Type, v: Value) returns (size: nat)
    requires Wf(ty) && Good(ty) && Typed(ty, v)
    ensures IsSize(size, ty, v)
    decreases ty, 0
  {
    if SizeOf(ty).Fixed? {
      FixedSizeIs(ty, v);
      return SizeOf(ty).bytes;
    }
    match ty {
      case Blob(_, _) => size := |v.bytes|;
      case Collection(kind, element, lengths) => size := CollectionSize(kind, element, lengths, v.items);
      case Pair(key, value) =>
        var rest := ValueSize(value, v.value);
        size := SizeOf(key).bytes + rest;
      case Newtype(target) => size := ValueSize(target, v.inner);
      case Struct(fields) => size := ObjectSizeOf(fields, v.fields);
      case Union(variants) =>
        var data := VariantSize(variants[v.index], v.data);
        size := TagWidth(|variants|) + data;
    }
  }
}
