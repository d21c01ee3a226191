/**
 What generated code does with a type, as an interpreter over the type: the bytes the encoder
 writes, what the validator accepts, and what the unchecked view reads.
 */
module Codec {
  import opened Wrappers
  import opened Bytes
  import opened Layouts
  import opened Objects
  import opened Sequences
  import opened Scalars
  import opened Types

  // ----- owned values

  predicate FieldTyped(field: Field, o: Option<Value>)
    decreases field
  {
    (o.None? ==> field.optional) && (o.Some? ==> Typed(field.ty, o.value))
  }

  predicate VariantTyped(variant: Variant, o: Option<Value>)
    decreases variant
  {
    (o.Some? <==> variant.Data?) && (o.Some? ==> Typed(variant.ty, o.value))
  }

  /** `v` is a value of the owned type of `ty`. */
  predicate Typed(ty: Type, v: Value)
    decreases ty
  {
    match ty
    case Atomic(s) => v.Leaf? && AtomTyped(s, v.atom)
    case Blob(text, lengths) =>
      && v.Raw?
      && (text ==> Utf8(v.bytes))
      && (!text && lengths.FixedLength().Some? ==> |v.bytes| == lengths.FixedLength().value)
    case Array(item, count) =>
      v.Items? && |v.items| == count && forall i :: 0 <= i < |v.items| ==> Typed(item, v.items[i])
    case Collection(_, element, _) =>
      v.Items? && forall i :: 0 <= i < |v.items| ==> Typed(element, v.items[i])
    case Pair(key, value) => v.Entry? && Typed(key, v.key) && Typed(value, v.value)
    case Newtype(target) => v.Wrapped? && Typed(target, v.inner)
    case Struct(fields) =>
      && v.Object? && |v.fields| == |fields|
      && forall i :: 0 <= i < |fields| ==> FieldTyped(fields[i], v.fields[i])
    case Union(variants) =>
      v.Choice? && v.index < |variants| && VariantTyped(variants[v.index], v.data)
  }

  predicate FieldMeets(field: Field, o: Option<Value>, deep: bool)
    requires Wf(field.ty) && FieldTyped(field, o)
    decreases field
  {
    o.Some? ==> Checks(field.ty, o.value, deep)
  }

  predicate VariantMeets(variant: Variant, o: Option<Value>, deep: bool)
    requires (variant.Data? ==> Wf(variant.ty)) && VariantTyped(variant, o)
    decreases variant
  {
    o.Some? ==> Checks(variant.ty, o.value, deep)
  }

  /**
   `v` passes the range, float, and length checks of `ty`. The encoder only counts items of no
   size, so it checks inside them only when `deep`.
   */
  predicate Checks(ty: Type, v: Value, deep: bool)
    requires Wf(ty) && Typed(ty, v)
    decreases ty
  {
    match ty
    case Atomic(s) => AtomMeets(s, v.atom)
    case Blob(text, lengths) => (!text && lengths.FixedLength().Some?) || lengths.Allows(|v.bytes|)
    case Array(item, _) => forall i :: 0 <= i < |v.items| ==> Checks(item, v.items[i], deep)
    case Collection(_, element, lengths) =>
      && lengths.Allows(|v.items|)
      && (deep || SizeOf(element) != Fixed(0) ==> forall i :: 0 <= i < |v.items| ==> Checks(element, v.items[i], deep))
    case Pair(key, value) => Checks(key, v.key, deep) && Checks(value, v.value, deep)
    case Newtype(target) => Checks(target, v.inner, deep)
    case Struct(fields) => forall i :: 0 <= i < |fields| ==> FieldMeets(fields[i], v.fields[i], deep)
    case Union(variants) => VariantMeets(variants[v.index], v.data, deep)
  }

  /** `v` meets every constraint of `ty`. */
  predicate Meets(ty: Type, v: Value)
    requires Wf(ty) && Typed(ty, v)
  {
    Checks(ty, v, true)
  }

  /** `v` passes every check the encoder makes. */
  predicate Checked(ty: Type, v: Value)
    requires Wf(ty) && Typed(ty, v)
  {
    Checks(ty, v, false)
  }

  // ----- encoding

  /** The bit of a `bool`, or of a `type` over one. */
  function FlagOf(ty: Type, v: Value): bool
    requires Wf(ty) && IsFlag(ty) && Typed(ty, v)
    decreases ty
  {
    match ty
    case Atomic(_) => v.atom.truth
    case Newtype(target) => FlagOf(target, v.inner)
  }

  /** An array that lays out takes its items' bytes, with no saturation. */
  lemma {:induction false} ArrayBytes(size: nat, count: nat)
    requires ArraySize(Fixed(size), count).bytes <= MAX_SIZE
    ensures ArraySize(Fixed(size), count).bytes == Times(count, size)
  {
    TimesIsProduct(count, size);
  }

  lemma {:induction false} PairFixed(key: Type, value: Type)
    requires Wf(key) && Wf(value) && Good(key) && Good(value) && !key.Pair? && !value.Pair?
    ensures var size := PairSize(SizeOf(key), SizeOf(value));
            size.Fixed? ==> SizeOf(key).Fixed? && SizeOf(value).Fixed? && size.bytes == SizeOf(key).bytes + SizeOf(value).bytes
  {
    if SizeOf(key).Fixed? && SizeOf(value).Fixed? {
      FixedSmall(key);
      FixedSmall(value);
    }
  }

  /** An object of no varying size takes its head. */
  lemma {:induction false} FixedObject(ms: seq<Member>, ps: seq<Part>)
    requires PartsFit(ms, ps) && ObjectSize(ms).Fixed? && Head(ms) <= MAX_SIZE
    ensures |Assemble(ms, ps)| == ObjectSize(ms).bytes
  {
    FixedHead(ms);
    AssembledSize(ms, ps);
    NoOptionalPieces(ms, ps);
  }

  lemma {:induction false} NoOptionalPieces(ms: seq<Member>, ps: seq<Part>)
    requires |ms| == |ps| && forall i :: 0 <= i < |ms| ==> !ms[i].IsOptional()
    ensures Flat(OptionalPieces(ms, ps)) == []
  {
    if ms != [] {
      var n := |ms| - 1;
      NoOptionalPieces(ms[..n], ps[..n]);
      assert OptionalPieces(ms, ps)[..n] == OptionalPieces(ms[..n], ps[..n]);
    }
  }

  predicate Encodable(ty: Type, v: Value) {
    Wf(ty) && Good(ty) && Typed(ty, v) && Checked(ty, v)
  }

  function PartOf(field: Field, o: Option<Value>): (p: Part)
    requires Wf(field.ty) && Good(field.ty) && FieldTyped(field, o) && FieldMeets(field, o, false) && !field.ty.Pair?
    ensures PartFits(MemberOf(field), p)
    decreases field
  {
    if IsFlag(field.ty) then
      if !field.optional then Flag(FlagOf(field.ty, o.value))
      else MaybeFlag(if o.None? then None else Some(FlagOf(field.ty, o.value)))
    else if SizeOf(field.ty).Fixed? && !field.optional then Plain(Enc(field.ty, o.value))
    else Chunk(if o.None? then None else Some(Enc(field.ty, o.value)))
  }

  function Parts(fields: seq<Field>, os: seq<Option<Value>>): (ps: seq<Part>)
    requires |fields| == |os|
    requires forall i :: 0 <= i < |fields| ==>
      && Wf(fields[i].ty) && Good(fields[i].ty) && !fields[i].ty.Pair?
      && FieldTyped(fields[i], os[i]) && FieldMeets(fields[i], os[i], false)
    ensures PartsFit(Members(fields), ps)
    decreases fields
  {
    seq(|fields|, i requires 0 <= i < |fields| => PartOf(fields[i], os[i]))
  }

  function VariantBytes(variant: Variant, o: Option<Value>): seq<byte>
    requires variant.Data? ==> Wf(variant.ty) && Good(variant.ty)
    requires VariantTyped(variant, o) && VariantMeets(variant, o, false)
    decreases variant
  {
    if o.None? then [] else Enc(variant.ty, o.value)
  }

  /** The encodings of a run of values of one type. */
  function EncAll(ty: Type, vs: seq<Value>): (r: seq<seq<byte>>)
    requires Wf(ty) && forall i :: 0 <= i < |vs| ==> Encodable(ty, vs[i])
    ensures |r| == |vs|
    ensures forall i :: 0 <= i < |vs| ==> r[i] == Enc(ty, vs[i])
    ensures SizeOf(ty).Fixed? ==> AllOfSize(r, SizeOf(ty).bytes)
    decreases ty, 1
  {
    seq(|vs|, i requires 0 <= i < |vs| => Enc(ty, vs[i]))
  }

  /** The bytes the encoder writes for `v`; a count or a length too large for its width is cut. */
  function Enc(ty: Type, v: Value): (b: seq<byte>)
    requires Encodable(ty, v)
    ensures SizeOf(ty).Fixed? ==> |b| == SizeOf(ty).bytes
    decreases ty, 0
  {
    match ty
    case Atomic(s) => EncAtom(s, v.atom)
    case Blob(_, _) => v.bytes
    case Array(item, count) =>
      var items := EncAll(item, v.items);
      FlatSize(items, SizeOf(item).bytes);
      ArrayBytes(SizeOf(item).bytes, count);
      Flat(items)
    case Collection(_, element, lengths) =>
      (match SequenceOf(SizeOf(element), lengths)
       case Packed(_) => Flat(EncAll(element, v.items))
       case Counted(count) => Le(count, |v.items|)
       case Prefixed(count, prefix) => Le(count, |v.items|) + JoinItems(EncAll(element, v.items), prefix))
    case Pair(key, value) => PairFixed(key, value); Enc(key, v.key) + Enc(value, v.value)
    case Newtype(target) => Enc(target, v.inner)
    case Struct(fields) =>
      var ms, ps := Members(fields), Parts(fields, v.fields);
      assert ObjectSize(ms).Fixed? ==> |Assemble(ms, ps)| == ObjectSize(ms).bytes by {
        if ObjectSize(ms).Fixed? {
          FixedObject(ms, ps);
        }
      }
      Assemble(ms, ps)
    case Union(variants) =>
      Le(TagWidth(|variants|), v.index + 1) + VariantBytes(variants[v.index], v.data)
  }

  predicate FieldFits(field: Field, o: Option<Value>)
    requires Wf(field.ty) && Good(field.ty) && FieldTyped(field, o) && FieldMeets(field, o, false)
    decreases field
  {
    o.Some? ==> Fits(field.ty, o.value)
  }

  predicate VariantFits(variant: Variant, o: Option<Value>)
    requires variant.Data? ==> Wf(variant.ty) && Good(variant.ty)
    requires VariantTyped(variant, o) && VariantMeets(variant, o, false)
    decreases variant
  {
    o.Some? ==> Fits(variant.ty, o.value)
  }

  predicate AllFit(ty: Type, vs: seq<Value>)
    requires forall i :: 0 <= i < |vs| ==> Encodable(ty, vs[i])
    decreases ty, 1
  {
    forall i :: 0 <= i < |vs| ==> Fits(ty, vs[i])
  }

  /** Every count, length prefix, and boundary of the encoding fits its width. */
  predicate Fits(ty: Type, v: Value)
    requires Encodable(ty, v)
    decreases ty, 0
  {
    match ty
    case Atomic(_) => true
    case Blob(_, _) => true
    case Array(item, _) => AllFit(item, v.items)
    case Collection(_, element, lengths) =>
      (match SequenceOf(SizeOf(element), lengths)
       case Packed(_) => AllFit(element, v.items)
       case Counted(count) => |v.items| < Pow256(count)
       case Prefixed(count, prefix) =>
         && |v.items| < Pow256(count)
         && PrefixesFit(EncAll(element, v.items), prefix)
         && AllFit(element, v.items))
    case Pair(key, value) => Fits(key, v.key) && Fits(value, v.value)
    case Newtype(target) => Fits(target, v.inner)
    case Struct(fields) =>
      && BoundariesFit(Members(fields), Parts(fields, v.fields))
      && forall i :: 0 <= i < |fields| ==> FieldFits(fields[i], v.fields[i])
    case Union(variants) => VariantFits(variants[v.index], v.data)
  }

  // ----- validation

  /** The checks of a field's value where the object says it is; a bit needs none. */
  predicate FieldValid(field: Field, p: Part)
    requires Wf(field.ty) && Good(field.ty)
    decreases field
  {
    match p
    case Plain(b) => Valid(field.ty, b)
    case Chunk(o) => o.Some? ==> Valid(field.ty, o.value)
    case _ => true
  }

  predicate VariantValid(variant: Variant, b: seq<byte>)
    requires variant.Data? ==> Wf(variant.ty) && Good(variant.ty)
    decreases variant
  {
    if variant.Unit? then b == [] else Valid(variant.ty, b)
  }

  predicate AllValid(ty: Type, items: seq<seq<byte>>)
    requires Wf(ty) && Good(ty)
    decreases ty, 1
  {
    forall i :: 0 <= i < |items| ==> Valid(ty, items[i])
  }

  /** The validator accepts `b` as exactly one encoding of `ty`. */
  predicate Valid(ty: Type, b: seq<byte>)
    requires Wf(ty) && Good(ty)
    decreases ty, 0
  {
    match ty
    case Atomic(s) => ValidAtom(s, b)
    case Blob(text, lengths) => (text ==> Utf8(b)) && lengths.Allows(|b|)
    case Array(item, count) =>
      var size := SizeOf(item).bytes;
      |b| == Times(count, size) && (count > 0 ==> AllValid(item, Chunks(b, count, size)))
    case Collection(_, element, lengths) =>
      (match SequenceOf(SizeOf(element), lengths)
       case Packed(size) =>
         && |b| % size == 0
         && lengths.Allows(|b| / size)
         && (PackedCount(|b|, size); AllValid(element, Chunks(b, |b| / size, size)))
       case Counted(count) => CountWidth(lengths); |b| == count && lengths.Allows(ReadLen(b, count))
       case Prefixed(count, prefix) =>
         CountWidth(lengths);
         PrefixWidth(element);
         && count <= |b|
         && lengths.Allows(ReadLen(b, count))
         && SplitItems(b[count..], ReadLen(b, count), prefix).Some?
         && AllValid(element, SplitItems(b[count..], ReadLen(b, count), prefix).value))
    case Pair(key, value) =>
      var size := SizeOf(key).bytes;
      size <= |b| && Valid(key, b[..size]) && Valid(value, b[size..])
    case Newtype(target) => Valid(target, b)
    case Struct(fields) =>
      && ObjectValid(Members(fields), b)
      && forall i :: 0 <= i < |fields| ==> FieldValid(fields[i], Extract(Members(fields), b, i))
    case Union(variants) =>
      TagTwoBytes(|variants|);
      var w := TagWidth(|variants|);
      w <= |b| && 1 <= ReadLen(b, w) <= |variants| && VariantValid(variants[ReadLen(b, w) - 1], b[w..])
  }

  lemma {:induction false} CountWidth(lengths: Lengths)
    requires lengths.Wf()
    ensures LengthWidth(BoundOption(lengths.max)) in {1, 2}
  {
  }

  lemma {:induction false} TagTwoBytes(variants: nat)
    requires variants <= MAX_VARIANTS
    ensures TagWidth(variants) in {1, 2} && variants < Pow256(TagWidth(variants))
  {
  }

  lemma {:induction false} PrefixWidth(ty: Type)
    requires Wf(ty)
    ensures SizeOf(ty).Var? && SizeOf(ty).max.Some? ==> SizeOf(ty).max.value <= MAX_SIZE
    ensures SizeOf(ty).Var? ==> LengthWidth(SizeOf(ty).max) in {1, 2}
  {
    match ty {
      case Newtype(target) => PrefixWidth(target);
      case _ =>
    }
  }

  // ----- values of no size

  lemma {:induction false} NoBytes(ms: seq<Member>, i: nat)
    requires AtBytes(ms) == 0 && i < |ms| && ms[i].IsAt()
    ensures ms[i].size.bytes == 0
  {
    PrefixStep(ms, i);
  }

  lemma {:induction false} EmptyObject(ms: seq<Member>)
    requires ObjectSize(ms) == Fixed(0) && Head(ms) <= MAX_SIZE
    ensures ObjectValid(ms, []) && Bits(ms) == 0
    ensures forall i :: 0 <= i < |ms| ==> ms[i].IsAt() && ms[i].size.bytes == 0 && Extract(ms, [], i) == Plain([])
  {
    FixedHead(ms);
    assert Head(ms) == 0 && Bits(ms) == 0;
    forall i | 0 <= i < |ms|
      ensures ms[i].IsAt() && ms[i].size.bytes == 0
    {
      PrefixStep(ms, i);
      NoBytes(ms, i);
    }
    PositionFlat(ms, |ms|);
  }

  /** Without optional fields, every position is the end of the head. */
  lemma {:induction false} PositionFlat(ms: seq<Member>, i: nat)
    requires i <= |ms| && Head(ms) == 0 && forall j :: 0 <= j < |ms| ==> !ms[j].IsOptional()
    ensures Position(ms, [], i) == 0
  {
    if i > 0 {
      PositionFlat(ms, i - 1);
      PositionStep(ms, [], i - 1);
    } else {
      assert ms[..0] == [];
    }
  }

  lemma {:induction false} AllEmpty(b: seq<byte>, n: nat)
    requires b == []
    ensures Times(n, 0) == 0 && forall i :: 0 <= i < n ==> Chunks(b, n, 0)[i] == []
    decreases n
  {
    if n > 0 {
      AllEmpty(b, n - 1);
    }
  }

  /** Whatever takes no bytes is valid as none, which is why items of size zero are only counted. */
  lemma {:induction false} EmptyValid(ty: Type)
    requires Wf(ty) && Good(ty) && SizeOf(ty) == Fixed(0)
    ensures Valid(ty, [])
    decreases ty
  {
    match ty {
      case Atomic(s) =>
      case Blob(_, _) =>
      case Array(item, count) =>
        ArrayBytes(SizeOf(item).bytes, count);
        if count > 0 {
          EmptyArray(SizeOf(item).bytes, count);
          EmptyValid(item);
          AllEmpty([], count);
        }
      case Pair(key, value) =>
        PairFixed(key, value);
        EmptyValid(key);
        EmptyValid(value);
        var none: seq<byte> := [];
        assert none[..0] == none && none[0..] == none;
      case Newtype(target) => EmptyValid(target);
      case Struct(fields) =>
        EmptyStruct(fields);
    }
  }

  lemma {:induction false} EmptyArray(size: nat, count: nat)
    requires Times(count, size) == 0 && count > 0
    ensures size == 0
  {
  }

  lemma {:induction false} EmptyStruct(fields: seq<Field>)
    requires Wf(Struct(fields)) && Good(Struct(fields)) && SizeOf(Struct(fields)) == Fixed(0)
    ensures Valid(Struct(fields), [])
    decreases fields
  {
    var ms := Members(fields);
    EmptyObject(ms);
    forall i | 0 <= i < |fields|
      ensures FieldValid(fields[i], Extract(ms, [], i))
    {
      assert ms[i] == MemberOf(fields[i]) && ms[i].IsAt() && ms[i].size.bytes == 0;
      EmptyField(fields[i]);
    }
  }

  lemma {:induction false} EmptyField(field: Field)
    requires Wf(field.ty) && Good(field.ty) && SizeOf(field.ty) == Fixed(0)
    ensures Valid(field.ty, [])
    decreases field
  {
    EmptyValid(field.ty);
  }

  // ----- reading in place

  function BitValue(ty: Type, bit: bool): Value
    requires Wf(ty) && IsFlag(ty)
    decreases ty
  {
    match ty
    case Atomic(_) => Leaf(ABool(bit))
    case Newtype(target) => Wrapped(BitValue(target, bit))
  }

  function ReadField(field: Field, p: Part): Option<Value>
    requires Wf(field.ty) && Good(field.ty) && PartFits(MemberOf(field), p) && FieldValid(field, p)
    decreases field
  {
    match p
    case Flag(bit) => Some(BitValue(field.ty, bit))
    case MaybeFlag(o) => if o.None? then None else Some(BitValue(field.ty, o.value))
    case Plain(b) => Some(Read(field.ty, b))
    case Chunk(o) => if o.None? then None else Some(Read(field.ty, o.value))
  }

  function ReadVariant(variant: Variant, b: seq<byte>): Option<Value>
    requires variant.Data? ==> Wf(variant.ty) && Good(variant.ty)
    requires VariantValid(variant, b)
    decreases variant
  {
    if variant.Unit? then None else Some(Read(variant.ty, b))
  }

  function ReadAll(ty: Type, items: seq<seq<byte>>): (vs: seq<Value>)
    requires Wf(ty) && Good(ty) && AllValid(ty, items)
    ensures |vs| == |items|
    ensures forall i :: 0 <= i < |vs| ==> vs[i] == Read(ty, items[i])
    decreases ty, 1
  {
    seq(|items|, i requires 0 <= i < |items| => Read(ty, items[i]))
  }

  /** What the view of `b` reads; that it is defined is that every unchecked read is in bounds. */
  function Read(ty: Type, b: seq<byte>): Value
    requires Wf(ty) && Good(ty) && Valid(ty, b)
    decreases ty, 0
  {
    match ty
    case Atomic(s) => Leaf(ReadAtom(s, b))
    case Blob(_, _) => Raw(b)
    case Array(item, count) =>
      if count == 0 then Items([]) else Items(ReadAll(item, Chunks(b, count, SizeOf(item).bytes)))
    case Collection(_, element, lengths) =>
      (match SequenceOf(SizeOf(element), lengths)
       case Packed(size) => PackedCount(|b|, size); Items(ReadAll(element, Chunks(b, |b| / size, size)))
       case Counted(count) =>
         CountWidth(lengths);
         EmptyValid(element);
         var v := Read(element, []);
         Items(seq(ReadLen(b, count), _ => v))
       case Prefixed(count, prefix) =>
         CountWidth(lengths);
         PrefixWidth(element);
         Items(ReadAll(element, SplitItems(b[count..], ReadLen(b, count), prefix).value)))
    case Pair(key, value) =>
      var size := SizeOf(key).bytes;
      Entry(Read(key, b[..size]), Read(value, b[size..]))
    case Newtype(target) => Wrapped(Read(target, b))
    case Struct(fields) =>
      Object(seq(|fields|, i requires 0 <= i < |fields| => ReadField(fields[i], Extract(Members(fields), b, i))))
    case Union(variants) =>
      TagTwoBytes(|variants|);
      var w := TagWidth(|variants|);
      var index := ReadLen(b, w) - 1;
      Choice(index, ReadVariant(variants[index], b[w..]))
  }
}
