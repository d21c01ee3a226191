/**
 Schema types with every name resolved, their sizes, and the owned values they hold. A `type` is
 a `Newtype` over its scalar, an enum an `Atomic`, and a map a collection of `Pair`s, its entries.
 */
module Types {
  import opened Wrappers
  import opened Bytes
  import opened Layouts
  import opened Scalars

  /** `min_length` and `max_length`. */
  datatype Lengths = Lengths(min: Option<nat>, max: Option<nat>) {
    /** The only length allowed, where there is only one. */
    function FixedLength(): Option<nat> {
      if min.Some? && min == max then min else None
    }

    predicate Wf() {
      && (min.Some? ==> min.value <= MAX_SIZE)
      && (max.Some? ==> max.value <= MAX_SIZE)
      && (min.Some? && max.Some? ==> min.value <= max.value)
    }

    /** The length check of the encoder and the validator; none without bounds. */
    predicate Allows(n: nat) {
      (min.None? && max.None?) || min.GetOr(0) <= n <= max.GetOr(MAX_SIZE)
    }
  }

  datatype CollectionKind = VecKind | SetKind | MapKind

  datatype Type =
    | Atomic(scalar: Scalar)
    | Blob(text: bool, lengths: Lengths)
    | Array(item: Type, count: nat)
    | Collection(kind: CollectionKind, element: Type, lengths: Lengths)
    | Pair(key: Type, value: Type)
    | Newtype(target: Type)
    | Struct(fields: seq<Field>)
    | Union(variants: seq<Variant>)

  datatype Field = Field(ty: Type, optional: bool)

  /** A variant's data; inline fields are a struct of them. */
  datatype Variant = Unit | Data(ty: Type)

  datatype Value =
    | Leaf(atom: Atom)
    | Raw(bytes: seq<byte>)
    | Items(items: seq<Value>)
    | Entry(key: Value, value: Value)
    | Wrapped(inner: Value)
    | Object(fields: seq<Option<Value>>)
    | Choice(index: nat, data: Option<Value>)

  const MAX_VARIANTS: nat := 0xffff

  /** What lowering checks of a type where it is written. */
  predicate Wf(ty: Type) {
    match ty
    case Atomic(s) => ScalarWf(s)
    case Blob(_, lengths) => lengths.Wf()
    case Array(item, _) => Wf(item) && !item.Pair?
    case Collection(kind, element, lengths) => Wf(element) && lengths.Wf() && (kind.MapKind? <==> element.Pair?)
    case Pair(key, value) => Wf(key) && Wf(value) && !key.Pair? && !value.Pair?
    case Newtype(target) => Wf(target) && (target.Atomic? || target.Newtype?)
    case Struct(fields) => forall i :: 0 <= i < |fields| ==> Wf(fields[i].ty) && !fields[i].ty.Pair?
    case Union(variants) =>
      && 1 <= |variants| <= MAX_VARIANTS
      && forall i :: 0 <= i < |variants| && variants[i].Data? ==> Wf(variants[i].ty) && !variants[i].ty.Pair?
  }

  /** Truth values, however many names deep; an object keeps them in its bitmap. */
  predicate IsFlag(ty: Type) {
    match ty
    case Atomic(s) => s.Bool?
    case Newtype(target) => IsFlag(target)
    case _ => false
  }

  // ----- sizes

  /** How a collection lays out its items. */
  datatype Sequence =
    | Packed(item: nat)
    | Counted(count: nat)
    | Prefixed(count: nat, prefix: nat)

  function BoundOption(max: Option<nat>): Option<nat> {
    if max.None? then None else Bound(max.value)
  }

  function SequenceOf(element: Size, lengths: Lengths): (s: Sequence)
    ensures element == Fixed(0) <==> s.Counted?
    ensures element.Fixed? && element.bytes > 0 ==> s == Packed(element.bytes)
    ensures element.Var? <==> s.Prefixed?
  {
    var count := LengthWidth(BoundOption(lengths.max));
    match element
    case Fixed(n) => if n == 0 then Counted(count) else Packed(n)
    case Var(max) => Prefixed(count, LengthWidth(max))
  }

  function SequenceMax(s: Sequence, element: Size, lengths: Lengths): Option<nat> {
    match s
    case Counted(count) => Some(count)
    case Packed(item) =>
      if lengths.max.None? then None else Bound(lengths.max.value * item)
    case Prefixed(count, prefix) =>
      if lengths.max.None? || element.Max().None? then None
      else
        var n := lengths.max.value;
        Bound(count + n * element.Max().value + (if n == 0 then 0 else n - 1) * prefix)
  }

  function PairSize(key: Size, value: Size): Size {
    if key.Fixed? && value.Fixed? then Fixed(Min(key.bytes + value.bytes, U32_MAX))
    else if key.Max().Some? && value.Max().Some? then Var(Bound(key.Max().value + value.Max().value))
    else Var(None)
  }

  function ArraySize(item: Size, count: nat): Size {
    match item
    case Fixed(n) => Fixed(Min(n * count, U32_MAX))
    case Var(max) => Var(if max.None? then None else Bound(max.value * count))
  }

  /** The bytes of a union's tag. */
  function TagWidth(variants: nat): (w: nat)
    ensures w in {1, 2, 4, 8}
  {
    WidthOf(variants)
  }

  /** The tag is the least width for the tags 1, 2, and on, one for each variant. */
  lemma {:induction false} TagLeast(variants: nat, w: nat)
    requires 1 <= variants <= MAX_VARIANTS && w in {1, 2, 4, 8}
    ensures TagWidth(variants) <= w <==> forall tag :: 0 <= tag <= variants ==> FitsWidth(tag, w)
  {
    WidthLeast(variants, w);
  }

  /** A count and a prefix take the least width for the lengths allowed, an item only as far as a message goes. */
  lemma {:induction false} SequenceLeast(element: Size, lengths: Lengths, w: nat)
    requires w in {1, 2, 4, 8} && (element.Var? && element.max.Some? ==> element.max.value <= MAX_SIZE)
    ensures var s := SequenceOf(element, lengths);
            && (!s.Packed? ==>
                  (s.count <= w <==> forall n :: 0 <= n <= Min(lengths.max.GetOr(MAX_SIZE), MAX_SIZE) ==> FitsWidth(n, w)))
            && (s.Prefixed? ==>
                  (s.prefix <= w <==> forall n :: 0 <= n <= element.max.GetOr(MAX_SIZE) ==> FitsWidth(n, w)))
  {
    LengthLeast(BoundOption(lengths.max), w);
    if element.Var? {
      LengthLeast(element.max, w);
    }
  }

  function VariantMax(variant: Variant): Option<nat>
    requires variant.Data? ==> Wf(variant.ty)
    decreases variant
  {
    if variant.Unit? then Some(0) else SizeOf(variant.ty).Max()
  }

  /** The most bytes of a union's data, `None` once a variant is unbounded. */
  function LargestVariant(variants: seq<Variant>): Option<nat>
    requires forall i :: 0 <= i < |variants| && variants[i].Data? ==> Wf(variants[i].ty)
    decreases variants
  {
    if variants == [] then Some(0)
    else
      var n := |variants| - 1;
      var rest := LargestVariant(variants[..n]);
      var last := VariantMax(variants[n]);
      if rest.Some? && last.Some? then Some(if rest.value < last.value then last.value else rest.value) else None
  }

  function MemberOf(field: Field): Member
    requires Wf(field.ty)
    decreases field
  {
    Member(field.optional, IsFlag(field.ty), SizeOf(field.ty))
  }

  function Members(fields: seq<Field>): (ms: seq<Member>)
    requires forall i :: 0 <= i < |fields| ==> Wf(fields[i].ty)
    ensures |ms| == |fields|
    decreases fields
  {
    seq(|fields|, i requires 0 <= i < |fields| => MemberOf(fields[i]))
  }

  /** How many bytes a value of `ty` takes. */
  function SizeOf(ty: Type): Size
    requires Wf(ty)
    decreases ty
  {
    match ty
    case Atomic(s) => Fixed(ScalarSize(s))
    case Blob(_, lengths) =>
      if lengths.FixedLength().Some? then Fixed(Min(lengths.FixedLength().value, U32_MAX))
      else Var(BoundOption(lengths.max))
    case Array(item, count) => ArraySize(SizeOf(item), count)
    case Collection(_, element, lengths) =>
      var size := SizeOf(element);
      Var(SequenceMax(SequenceOf(size, lengths), size, lengths))
    case Pair(key, value) => PairSize(SizeOf(key), SizeOf(value))
    case Newtype(target) => SizeOf(target)
    case Struct(fields) => ObjectSize(Members(fields))
    case Union(variants) =>
      var largest := LargestVariant(variants);
      Var(if largest.None? then None else Bound(TagWidth(|variants|) + largest.value))
  }

  // ----- UTF-8

  /** The bytes of the character at the start of `b`, 0 when there is none (section 3.9, table 3-7, of the Unicode Standard). */
  function CharLength(b: seq<byte>): (n: nat)
    ensures n <= |b|
  {
    if b == [] then 0
    else if b[0] < 0x80 then 1
    else if |b| < 2 then 0
    else if 0xc2 <= b[0] < 0xe0 then if Tail(b[1]) then 2 else 0
    else if |b| < 3 then 0
    else if 0xe0 <= b[0] < 0xf0 then
      if && Tail(b[1]) && Tail(b[2])
         && (b[0] == 0xe0 ==> b[1] >= 0xa0) && (b[0] == 0xed ==> b[1] < 0xa0) then 3 else 0
    else if |b| < 4 then 0
    else
      if && 0xf0 <= b[0] < 0xf5
         && Tail(b[1]) && Tail(b[2]) && Tail(b[3])
         && (b[0] == 0xf0 ==> b[1] >= 0x90) && (b[0] == 0xf4 ==> b[1] < 0x90) then 4 else 0
  }

  predicate Tail(b: byte) {
    0x80 <= b < 0xc0
  }

  /** Well-formed UTF-8. */
  predicate Utf8(b: seq<byte>)
    decreases |b|
  {
    b == [] || (CharLength(b) > 0 && Utf8(b[CharLength(b)..]))
  }

  /** `valid_up_to`: the bytes of the characters before the first malformed one. */
  function ValidUpTo(b: seq<byte>): (n: nat)
    ensures n <= |b| && (n == |b| <==> Utf8(b))
    decreases |b|
  {
    if b == [] || CharLength(b) == 0 then 0 else CharLength(b) + ValidUpTo(b[CharLength(b)..])
  }

  // ----- runs of bytes

  /** A byte of the encoding that is the byte of the value, whichever it is. */
  predicate IsRawByte(ty: Type)
    requires Wf(ty)
  {
    ty.Atomic? && ty.scalar.Int? && ty.scalar.kind.U8? && !Constrained(ty.scalar) && ReprOf(ty.scalar).Native?
  }

  // ----- what lays out without errors

  predicate WfFields(fields: seq<Field>) {
    forall i :: 0 <= i < |fields| ==> Wf(fields[i].ty)
  }

  /**
   The compiler accepts the type: items and keys that must be fixed-size are, and nothing is too
   large for a message. An array of no items may hold an oversized item.
   */
  predicate Good(ty: Type)
    requires Wf(ty)
  {
    match ty
    case Atomic(_) => true
    case Blob(_, _) => true
    case Array(item, count) =>
      && SizeOf(item).Fixed? && SizeOf(ty).bytes <= MAX_SIZE
      && (count > 0 ==> Good(item))
    case Collection(kind, element, _) => Good(element) && (kind.SetKind? ==> SizeOf(element).Fixed?)
    case Pair(key, value) => Good(key) && Good(value) && SizeOf(key).Fixed?
    case Newtype(target) => Good(target)
    case Struct(fields) =>
      && Head(Members(fields)) <= MAX_SIZE
      && forall i :: 0 <= i < |fields| ==> Good(fields[i].ty)
    case Union(variants) => forall i :: 0 <= i < |variants| && variants[i].Data? ==> Good(variants[i].ty)
  }

  /** A fixed-size type that lays out fits a message; a map's entry is two such types. */
  lemma {:induction false} FixedSmall(ty: Type)
    requires Wf(ty) && Good(ty) && SizeOf(ty).Fixed?
    ensures SizeOf(ty).bytes <= if ty.Pair? then 2 * MAX_SIZE else MAX_SIZE
  {
    match ty {
      case Newtype(target) => FixedSmall(target);
      case Pair(key, value) => FixedSmall(key); FixedSmall(value);
      case _ =>
    }
  }
}
