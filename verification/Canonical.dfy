/**
 Encodings are canonical: bytes the validator accepts are exactly what the encoder writes for the
 value they read as, a value of the owned type meeting every constraint.
 */
module Canonical {
  import opened Wrappers
  import opened Bytes
  import opened Layouts
  import opened Objects
  import opened Sequences
  import opened Scalars
  import opened Types
  import opened Codec
  import opened RoundTrips

  /** `b` is the encoding of `v`, which meets the constraints of `ty`. */
  predicate IsEncoding(ty: Type, v: Value, b: seq<byte>) {
    Encodable(ty, v) && Meets(ty, v) && Fits(ty, v) && Enc(ty, v) == b
  }

  predicate IsPart(field: Field, o: Option<Value>, p: Part) {
    && Wf(field.ty) && Good(field.ty) && !field.ty.Pair?
    && FieldTyped(field, o) && FieldMeets(field, o, true) && FieldMeets(field, o, false) && FieldFits(field, o)
    && PartOf(field, o) == p
  }

  lemma {:induction false} FlagCanonical(ty: Type, bit: bool)
    requires Wf(ty) && IsFlag(ty)
    ensures Typed(ty, BitValue(ty, bit)) && FlagOf(ty, BitValue(ty, bit)) == bit
    ensures Checks(ty, BitValue(ty, bit), true) && Checks(ty, BitValue(ty, bit), false)
    ensures Good(ty) ==> Fits(ty, BitValue(ty, bit))
    decreases ty
  {
    if ty.Newtype? {
      FlagCanonical(ty.target, bit);
    }
  }

  lemma {:induction false} FieldCanonical(field: Field, p: Part)
    requires Wf(field.ty) && Good(field.ty) && !field.ty.Pair?
    requires PartFits(MemberOf(field), p) && FieldValid(field, p)
    ensures IsPart(field, ReadField(field, p), p)
    decreases field
  {
    hide Typed, Checks, Fits, Enc, Read, Valid, SizeOf;
    match p {
      case Flag(bit) => FlagCanonical(field.ty, bit);
      case MaybeFlag(o) =>
        if o.Some? {
          FlagCanonical(field.ty, o.value);
        }
      case Plain(b) => Canonical(field.ty, b);
      case Chunk(o) =>
        if o.Some? {
          Canonical(field.ty, o.value);
        }
    }
  }

  lemma {:induction false} VariantCanonical(variant: Variant, b: seq<byte>)
    requires variant.Data? ==> Wf(variant.ty) && Good(variant.ty)
    requires VariantValid(variant, b)
    ensures var o := ReadVariant(variant, b);
            && VariantTyped(variant, o) && VariantMeets(variant, o, true) && VariantMeets(variant, o, false)
            && VariantFits(variant, o) && VariantBytes(variant, o) == b
    decreases variant
  {
    if variant.Data? {
      Canonical(variant.ty, b);
    }
  }

  predicate AreEncodings(ty: Type, vs: seq<Value>, items: seq<seq<byte>>) {
    |vs| == |items| && forall i :: 0 <= i < |vs| ==> IsEncoding(ty, vs[i], items[i])
  }

  lemma {:induction false} EncodingsJoined(ty: Type, vs: seq<Value>, items: seq<seq<byte>>)
    requires Wf(ty) && AreEncodings(ty, vs, items)
    ensures forall i :: 0 <= i < |vs| ==> Encodable(ty, vs[i]) && Meets(ty, vs[i])
    ensures AllFit(ty, vs) && EncAll(ty, vs) == items
  {
    hide Encodable, Meets, Fits, Enc;
  }

  lemma {:induction false} AllCanonical(ty: Type, items: seq<seq<byte>>)
    requires Wf(ty) && Good(ty) && AllValid(ty, items)
    ensures AreEncodings(ty, ReadAll(ty, items), items)
    decreases ty, 2
  {
    hide IsEncoding;
    forall i | 0 <= i < |items| ensures IsEncoding(ty, ReadAll(ty, items)[i], items[i]) {
      Canonical(ty, items[i]);
    }
  }

  /** Encodings are unique: accepted bytes are the encoding of what they read as. */
  lemma {:induction false} Canonical(ty: Type, b: seq<byte>)
    requires Wf(ty) && Good(ty) && Valid(ty, b)
    ensures IsEncoding(ty, Read(ty, b), b)
    decreases ty, 1
  {
    hide SizeOf, SequenceOf, Assemble, ObjectValid, Extract, BoundariesFit, Chunks, SplitItems, JoinItems, Le, Pow256, ReadLen;
    match ty {
      case Atomic(s) => AtomCanonical(s, b);
      case Blob(_, _) =>
      case Array(item, count) => ArrayCanonical(item, count, b);
      case Collection(_, element, lengths) =>
        var s := SequenceOf(SizeOf(element), lengths);
        if s.Packed? {
          PackedCanonical(ty, b);
        } else if s.Counted? {
          CountedCanonical(ty, b);
        } else {
          PrefixedCanonical(ty, b);
        }
      case Pair(key, value) => PairCanonical(key, value, b);
      case Newtype(target) => Canonical(target, b);
      case Struct(fields) => StructCanonical(fields, b);
      case Union(variants) => UnionCanonical(variants, b);
    }
  }

  lemma {:induction false} ArrayCanonical(item: Type, count: nat, b: seq<byte>)
    requires Wf(Array(item, count)) && Good(Array(item, count)) && Valid(Array(item, count), b)
    ensures IsEncoding(Array(item, count), Read(Array(item, count), b), b)
    decreases item, 3
  {
    if count > 0 {
      var items := Chunks(b, count, SizeOf(item).bytes);
      AllCanonical(item, items);
      ArrayJoined(item, count, b, ReadAll(item, items), items);
    }
  }

  lemma {:induction false} ArrayJoined(item: Type, count: nat, b: seq<byte>, vs: seq<Value>, items: seq<seq<byte>>)
    requires Wf(Array(item, count)) && Good(Array(item, count)) && AreEncodings(item, vs, items) && |vs| == count
    requires |b| == Times(count, SizeOf(item).bytes) && items == Chunks(b, count, SizeOf(item).bytes)
    ensures IsEncoding(Array(item, count), Items(vs), b)
  {
    hide Chunks, Times, AllOfSize, Typed, Checks, Fits, Enc;
    EncodingsJoined(item, vs, items);
    FlatOfChunks(b, count, SizeOf(item).bytes);
    ArrayEncodes(item, count, vs);
  }

  /** An array of values that encode does. */
  lemma {:induction false} ArrayEncodes(item: Type, count: nat, vs: seq<Value>)
    requires Wf(Array(item, count)) && Good(Array(item, count)) && |vs| == count
    requires forall i :: 0 <= i < |vs| ==> Encodable(item, vs[i]) && Meets(item, vs[i]) && Fits(item, vs[i])
    ensures var ty, v := Array(item, count), Items(vs);
            Encodable(ty, v) && Meets(ty, v) && Fits(ty, v) && Enc(ty, v) == Flat(EncAll(item, vs))
  {
    hide Flat;
    assert Typed(Array(item, count), Items(vs)) && Checked(Array(item, count), Items(vs));
  }

  /** A collection of values that encode, and not only counted, does. */
  lemma {:induction false} CollectionEncodes(ty: Type, vs: seq<Value>)
    requires ty.Collection? && Wf(ty) && Good(ty) && ty.lengths.Allows(|vs|)
    requires forall i :: 0 <= i < |vs| ==> Encodable(ty.element, vs[i]) && Meets(ty.element, vs[i]) && Fits(ty.element, vs[i])
    ensures Encodable(ty, Items(vs)) && Meets(ty, Items(vs))
  {
    hide Fits, Enc, SizeOf;
  }

  lemma {:induction false} PackedCanonical(ty: Type, b: seq<byte>)
    requires ty.Collection? && Wf(ty) && Good(ty) && Valid(ty, b)
    requires SequenceOf(SizeOf(ty.element), ty.lengths).Packed?
    ensures IsEncoding(ty, Read(ty, b), b)
    decreases ty.element, 3
  {
    var size := SizeOf(ty.element).bytes;
    PackedCount(|b|, size);
    var items := Chunks(b, |b| / size, size);
    AllCanonical(ty.element, items);
    PackedJoined(ty, b, |b| / size, ReadAll(ty.element, items), items);
  }

  lemma {:induction false} PackedJoined(ty: Type, b: seq<byte>, n: nat, vs: seq<Value>, items: seq<seq<byte>>)
    requires ty.Collection? && Wf(ty) && Good(ty) && SequenceOf(SizeOf(ty.element), ty.lengths).Packed?
    requires AreEncodings(ty.element, vs, items) && ty.lengths.Allows(n)
    requires |b| == Times(n, SizeOf(ty.element).bytes) && items == Chunks(b, n, SizeOf(ty.element).bytes)
    ensures IsEncoding(ty, Items(vs), b)
  {
    hide Chunks, Times, AllOfSize, Typed, Checks, SizeOf;
    EncodingsJoined(ty.element, vs, items);
    FlatOfChunks(b, n, SizeOf(ty.element).bytes);
    CollectionEncodes(ty, vs);
  }

  lemma {:induction false} CountedCanonical(ty: Type, b: seq<byte>)
    requires ty.Collection? && Wf(ty) && Good(ty) && Valid(ty, b)
    requires SequenceOf(SizeOf(ty.element), ty.lengths).Counted?
    ensures IsEncoding(ty, Read(ty, b), b)
    decreases ty.element, 3
  {
    hide Le, Pow256, ReadLen, Assemble, ObjectValid, Extract, BoundariesFit, Chunks, SplitItems, JoinItems;
    var w := LengthWidth(BoundOption(ty.lengths.max));
    CountWidth(ty.lengths);
    EmptyValid(ty.element);
    Canonical(ty.element, []);
    ReadLenIsLe(b, w);
    assert b[..w] == b;
    CollectionEncodes(ty, Read(ty, b).items);
  }

  lemma {:induction false} PrefixedCanonical(ty: Type, b: seq<byte>)
    requires ty.Collection? && Wf(ty) && Good(ty) && Valid(ty, b)
    requires SequenceOf(SizeOf(ty.element), ty.lengths).Prefixed?
    ensures IsEncoding(ty, Read(ty, b), b)
    decreases ty.element, 3
  {
    var s := SequenceOf(SizeOf(ty.element), ty.lengths);
    CountWidth(ty.lengths);
    PrefixWidth(ty.element);
    var items := SplitItems(b[s.count..], ReadLen(b, s.count), s.prefix).value;
    AllCanonical(ty.element, items);
    PrefixedJoined(ty, b, s.count, s.prefix, ReadAll(ty.element, items), items);
  }

  lemma {:induction false} PrefixedJoined(ty: Type, b: seq<byte>, count: nat, prefix: nat, vs: seq<Value>, items: seq<seq<byte>>)
    requires ty.Collection? && Wf(ty) && Good(ty) && SequenceOf(SizeOf(ty.element), ty.lengths) == Prefixed(count, prefix)
    requires count in {1, 2} && prefix in {1, 2} && count <= |b| && AreEncodings(ty.element, vs, items)
    requires SplitItems(b[count..], ReadLen(b, count), prefix) == Some(items) && ty.lengths.Allows(ReadLen(b, count))
    ensures IsEncoding(ty, Items(vs), b)
  {
    hide SplitItems, JoinItems, ReadLen, Typed, Checks, SizeOf, Le, Pow256;
    ReadLenIsLe(b, count);
    JoinSplit(b[count..], ReadLen(b, count), prefix);
    EncodingsJoined(ty.element, vs, items);
    CollectionEncodes(ty, vs);
    assert b == b[..count] + b[count..];
  }

  lemma {:induction false} PairParts(key: Type, value: Type)
    requires Wf(Pair(key, value)) && Good(Pair(key, value))
    ensures Wf(key) && Good(key) && Wf(value) && Good(value) && SizeOf(key).Fixed?
  {
  }

  lemma {:induction false} PairCanonical(key: Type, value: Type, b: seq<byte>)
    requires Wf(Pair(key, value)) && Good(Pair(key, value)) && Valid(Pair(key, value), b)
    ensures IsEncoding(Pair(key, value), Read(Pair(key, value), b), b)
    decreases Pair(key, value), 0
  {
    hide SizeOf, Good, Wf, Typed, Checks, Fits, Enc, Valid, Read;
    PairParts(key, value);
    PairRead(key, value, b);
    var size := SizeOf(key).bytes;
    Canonical(key, b[..size]);
    Canonical(value, b[size..]);
    assert b == b[..size] + b[size..];
    PairJoined(key, value, Read(key, b[..size]), Read(value, b[size..]), b[..size], b[size..]);
  }

  lemma {:induction false} PairRead(key: Type, value: Type, b: seq<byte>)
    requires Wf(Pair(key, value)) && Good(Pair(key, value)) && Valid(Pair(key, value), b)
    requires Wf(key) && Good(key) && Wf(value) && Good(value) && SizeOf(key).Fixed?
    ensures var size := SizeOf(key).bytes;
            && size <= |b| && Valid(key, b[..size]) && Valid(value, b[size..])
            && Read(Pair(key, value), b) == Entry(Read(key, b[..size]), Read(value, b[size..]))
  {
    hide SizeOf;
  }

  lemma {:induction false} PairJoined(key: Type, value: Type, k: Value, v: Value, a: seq<byte>, b: seq<byte>)
    requires Wf(Pair(key, value)) && Good(Pair(key, value)) && IsEncoding(key, k, a) && IsEncoding(value, v, b)
    ensures IsEncoding(Pair(key, value), Entry(k, v), a + b)
  {
    hide SizeOf;
  }

  lemma {:induction false} StructCanonical(fields: seq<Field>, b: seq<byte>)
    requires Wf(Struct(fields)) && Good(Struct(fields)) && Valid(Struct(fields), b)
    ensures IsEncoding(Struct(fields), Read(Struct(fields), b), b)
    decreases fields
  {
    hide ObjectValid, Extract, SizeOf, PartFits;
    var ms, v := Members(fields), Read(Struct(fields), b);
    forall i | 0 <= i < |fields|
      ensures PartFits(ms[i], Extract(ms, b, i)) && FieldValid(fields[i], Extract(ms, b, i))
      ensures IsPart(fields[i], v.fields[i], Extract(ms, b, i))
    {
      ExtractFits(ms, b, i);
      FieldCanonical(fields[i], Extract(ms, b, i));
    }
    ObjectJoined(fields, b, v.fields);
  }

  /** An object whose fields are encodings of what was read is itself. */
  lemma {:induction false} ObjectJoined(fields: seq<Field>, b: seq<byte>, os: seq<Option<Value>>)
    requires Wf(Struct(fields)) && Good(Struct(fields)) && ObjectValid(Members(fields), b) && |os| == |fields|
    requires forall i :: 0 <= i < |fields| ==> IsPart(fields[i], os[i], Extract(Members(fields), b, i))
    ensures IsEncoding(Struct(fields), Object(os), b)
  {
    hide ObjectValid, Extract, SizeOf, BoundariesFit, Assemble, PartOf, FieldTyped, FieldMeets, FieldFits;
    AssembleDisassembled(Members(fields), b);
    assert Parts(fields, os) == Disassemble(Members(fields), b);
  }

  lemma {:induction false} UnionCanonical(variants: seq<Variant>, b: seq<byte>)
    requires Wf(Union(variants)) && Good(Union(variants)) && Valid(Union(variants), b)
    ensures IsEncoding(Union(variants), Read(Union(variants), b), b)
    decreases variants
  {
    hide Le, Pow256, ReadLen, TagWidth, VariantValid, VariantMeets, VariantFits, VariantBytes, VariantTyped, SizeOf, ReadVariant;
    TagTwoBytes(|variants|);
    var w := TagWidth(|variants|);
    ReadLenIsLe(b, w);
    VariantCanonical(variants[ReadLen(b, w) - 1], b[w..]);
    assert b == b[..w] + b[w..];
  }

  /** No two byte strings are encodings of one value, nor one of two values. */
  lemma {:induction false} Bijection(ty: Type, b: seq<byte>, v: Value)
    requires Wf(ty) && Good(ty)
    ensures Valid(ty, b) && Read(ty, b) == v <==> IsEncoding(ty, v, b)
  {
    hide Valid, Read, Encodable, Meets, Fits, Enc, Wf, Good;
    if Valid(ty, b) {
      Canonical(ty, b);
    }
    if IsEncoding(ty, v, b) {
      RoundTrip(ty, v);
    }
  }
}
