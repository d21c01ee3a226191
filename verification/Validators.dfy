/**
 The generated validator, step by step: the runtime's checks in the order they are emitted, and
 none where the compiler found that any bytes will do. Each method accepts exactly the bytes
 `Valid` describes, and reports an offset within them otherwise.
 */
module Validators {
  import opened Bytes
  import opened Layouts
  import opened Objects
  import opened Sequences
  import opened Scalars
  import opened Types
  import opened Codec
  import Canonical

  datatype DecodeErrorKind =
    | TooLarge | BadSize | Boundary | BadLength | Padding | BadBool | BadEnum | BadEntity | OutOfRange | BadFloat | BadUtf8 | BadTag

  datatype Verdict = Accept | Reject(offset: nat, kind: DecodeErrorKind)

  /** Accepts exactly when `ok`; otherwise the offset is within the `len` bytes starting `at`. */
  predicate Judged(r: Verdict, ok: bool, at: nat, len: nat) {
    (r.Accept? <==> ok) && (r.Reject? ==> at <= r.offset <= at + len)
  }

  // ----- the runtime's single checks

  function Exact(b: seq<byte>, len: nat, at: nat): (r: Verdict)
    ensures Judged(r, |b| == len, at, |b|)
  {
    if |b| != len then Reject(at + Min(|b|, len), BadSize) else Accept
  }

  function AtLeast(b: seq<byte>, len: nat, at: nat): (r: Verdict)
    ensures Judged(r, |b| >= len, at, |b|)
  {
    if |b| < len then Reject(at + |b|, BadSize) else Accept
  }

  function InRange(value: int, min: int, max: int, at: nat): (r: Verdict)
    ensures Judged(r, min <= value <= max, at, 0)
  {
    if value < min || value > max then Reject(at, OutOfRange) else Accept
  }

  function FloatVerdict(s: Scalar, bits: nat, at: nat): (r: Verdict)
    requires s.Float?
    ensures Judged(r, FloatOk(s, bits), at, 0)
  {
    var size := Magnitude(s.double, bits);
    if size > Infinity(s.double) then if s.nan then Accept else Reject(at, BadFloat)
    else if size == Infinity(s.double) && !s.infinite then Reject(at, BadFloat)
    else
      InRange(
        Key(s.double, bits),
        s.least.GetOr(-(Infinity(s.double) as int)),
        s.most.GetOr(Infinity(s.double)),
        at)
  }

  /** The length check, emitted with a bound. */
  predicate Bounded(lengths: Lengths) {
    lengths.min.Some? || lengths.max.Some?
  }

  function LengthVerdict(lengths: Lengths, n: nat, at: nat): (r: Verdict)
    ensures Judged(r, lengths.Allows(n), at, 0)
  {
    if Bounded(lengths) && !(lengths.min.GetOr(0) <= n <= lengths.max.GetOr(MAX_SIZE)) then Reject(at, BadLength) else Accept
  }

  // ----- scalars

  /** Whether a scalar has a check at all. */
  predicate EmitsScalar(s: Scalar)
    requires ScalarWf(s)
  {
    match s
    case Int(_, _, _) =>
      if ReprOf(s).Native? then Constrained(s) else Hi(s) - Lo(s) < Pow256(ReprOf(s).width) - 1
    case Float(_, _, _, _, _) => !AnyFloat(s)
    case _ => true
  }

  function IntVerdict(s: Scalar, b: seq<byte>, at: nat): (r: Verdict)
    requires s.Int? && BoundsOk(s) && |b| == ReprOf(s).width
    ensures Judged(r, ValidInt(s, b), at, 0)
  {
    LeWrites(b);
    match ReprOf(s)
    case Native(_) =>
      if Constrained(s) then InRange(FromRaw(s.kind, LeVal(b)), Lo(s), Hi(s), at) else Accept
    case Biased(_, width) =>
      if Hi(s) - Lo(s) < Pow256(width) - 1 then InRange(LeVal(b), 0, Hi(s) - Lo(s), at) else Accept
  }

  function ScalarVerdict(s: Scalar, b: seq<byte>, at: nat): (r: Verdict)
    requires ScalarWf(s) && |b| == ScalarSize(s)
    ensures Judged(r, ValidAtom(s, b), at, |b|)
  {
    hide LeVal, Pow256, FloatOk, ValidInt;
    match s
    case Int(_, _, _) => IntVerdict(s, b, at)
    case Float(_, _, _, _, _) =>
      AnyFloatOk(s, LeVal(b));
      if AnyFloat(s) then Accept else FloatVerdict(s, LeVal(b), at)
    case Bool => if b[0] > 1 then Reject(at, BadBool) else Accept
    case Timestamp => InRange(LeVal(b), 0, MAX_TIMESTAMP_MICROS, at)
    case Duration => InRange(LeVal(b), 0, MAX_DURATION_MICROS, at)
    case Entity => if b[4..8] == [0, 0, 0, 0] then Reject(at + 4, BadEntity) else Accept
    case Enum(_, values) => if LeVal(b) in values then Accept else Reject(at, BadEnum)
  }

  lemma {:induction false} ScalarElided(s: Scalar, b: seq<byte>)
    requires ScalarWf(s) && !EmitsScalar(s) && |b| == ScalarSize(s)
    ensures ValidAtom(s, b)
  {
    hide LeVal, Pow256, FloatOk;
    match s {
      case Int(_, _, _) => IntElided(s, b);
      case Float(_, _, _, _, _) => AnyFloatOk(s, LeVal(b));
    }
  }

  lemma {:induction false} IntElided(s: Scalar, b: seq<byte>)
    requires s.Int? && BoundsOk(s) && !EmitsScalar(s) && |b| == ReprOf(s).width
    ensures ValidInt(s, b)
  {
    LeWrites(b);
  }

  // ----- which types have checks

  predicate FieldEmits(field: Field)
    requires Wf(field.ty)
    decreases field
  {
    EmitsFixed(field.ty)
  }

  /** The bits of `bool` fields. */
  function FlagBits(ms: seq<Member>): nat {
    if ms == [] then 0
    else
      var n := |ms| - 1;
      FlagBits(ms[..n]) + if ms[n].flag then ms[n].Bits() else 0
  }

  /** A fixed-size struct leaves something to check: a bit left over, a flag that may be absent, or a field with a check. */
  predicate IsChecked(fields: seq<Field>)
    requires WfFields(fields)
    decreases fields
  {
    || FlagBits(Members(fields)) % 8 != 0
    || (exists i :: 0 <= i < |fields| && IsFlag(fields[i].ty) && fields[i].optional)
    || exists i :: 0 <= i < |fields| && MemberOf(fields[i]).IsAt() && FieldEmits(fields[i])
  }

  /** A check is emitted for the type, of a size that is always the same. */
  predicate EmitsFixed(ty: Type)
    requires Wf(ty)
    decreases ty
  {
    match ty
    case Atomic(s) => EmitsScalar(s)
    case Blob(text, _) => text
    case Array(item, _) => EmitsFixed(item)
    case Pair(key, value) => EmitsFixed(key) || EmitsFixed(value)
    case Newtype(target) => EmitsFixed(target)
    case Struct(fields) => IsChecked(fields)
    case _ => true
  }

  /** A check is emitted for the type, whose size varies. */
  predicate EmitsVar(ty: Type)
    requires Wf(ty)
  {
    match ty
    case Blob(text, lengths) => text || Bounded(lengths)
    case Collection(_, element, lengths) =>
      Bounded(lengths) || SequenceOf(SizeOf(element), lengths) != Packed(1) || EmitsFixed(element)
    case _ => true
  }

  lemma {:induction false} FlagBitsAll(ms: seq<Member>)
    requires !Varies(ms)
    ensures FlagBits(ms) == Bits(ms)
  {
    if ms != [] {
      var n := |ms| - 1;
      assert !Varies(ms[..n]);
      FlagBitsAll(ms[..n]);
      assert !ms[n].IsOptional() && !ms[n].IsVar();
    }
  }

  // ----- elided checks are sound

  lemma {:induction false} FieldElided(field: Field, b: seq<byte>)
    requires Wf(field.ty) && Good(field.ty) && !FieldEmits(field) && SizeOf(field.ty) == Fixed(|b|)
    ensures Valid(field.ty, b)
    decreases field
  {
    FixedElided(field.ty, b);
  }

  lemma {:induction false} AllElided(ty: Type, items: seq<seq<byte>>)
    requires Wf(ty) && Good(ty) && !EmitsFixed(ty) && SizeOf(ty).Fixed? && AllOfSize(items, SizeOf(ty).bytes)
    ensures AllValid(ty, items)
    decreases ty, 1
  {
    forall i | 0 <= i < |items| ensures Valid(ty, items[i]) {
      FixedElided(ty, items[i]);
    }
  }

  /** A fixed-size type without a check: any bytes of its size are valid. */
  lemma {:induction false} FixedElided(ty: Type, b: seq<byte>)
    requires Wf(ty) && Good(ty) && !EmitsFixed(ty) && SizeOf(ty) == Fixed(|b|)
    ensures Valid(ty, b)
    decreases ty, 0
  {
    match ty {
      case Atomic(s) => ScalarElided(s, b);
      case Blob(_, _) =>
      case Array(item, count) =>
        ArrayBytes(SizeOf(item).bytes, count);
        if count > 0 {
          AllElided(item, Chunks(b, count, SizeOf(item).bytes));
        }
      case Pair(key, value) =>
        PairFixed(key, value);
        FixedElided(key, b[..SizeOf(key).bytes]);
        FixedElided(value, b[SizeOf(key).bytes..]);
      case Newtype(target) => FixedElided(target, b);
      case Struct(fields) => StructElided(fields, b);
    }
  }

  lemma {:induction false} NoOptionals(ms: seq<Member>)
    requires forall i :: 0 <= i < |ms| ==> !ms[i].IsOptional()
    ensures Optionals(ms) == []
  {
    if ms != [] {
      NoOptionals(ms[..|ms| - 1]);
    }
  }

  /** An object of no varying size, with no bits to check. */
  lemma {:induction false} FixedObjectValid(ms: seq<Member>, b: seq<byte>)
    requires !Varies(ms) && |b| == Head(ms) && UnusedClear(ms, b) && FlagsCanonical(ms, b)
    ensures ObjectValid(ms, b)
  {
    FixedHead(ms);
    NoOptionals(ms);
    assert ms[..|ms|] == ms;
    assert forall i :: 0 <= i < |ms| ==> !ms[i].IsOptional() && !ms[i].IsVar();
  }

  lemma {:induction false} StructElided(fields: seq<Field>, b: seq<byte>)
    requires Wf(Struct(fields)) && Good(Struct(fields)) && !IsChecked(fields) && SizeOf(Struct(fields)) == Fixed(|b|)
    ensures Valid(Struct(fields), b)
    decreases fields
  {
    var ms := Members(fields);
    FixedHead(ms);
    FlagBitsAll(ms);
    FixedObjectValid(ms, b);
    forall i | 0 <= i < |fields| ensures FieldValid(fields[i], Extract(ms, b, i)) {
      if ms[i].IsAt() {
        FieldElided(fields[i], ExtractAt(ms, b, i));
      }
    }
  }

  /** A variable-size type without a check: any bytes at all are valid. */
  lemma {:induction false} VarElided(ty: Type, b: seq<byte>)
    requires Wf(ty) && Good(ty) && !EmitsVar(ty) && SizeOf(ty).Var?
    ensures Valid(ty, b)
  {
    if ty.Collection? {
      TimesIsProduct(|b|, 1);
      AllElided(ty.element, Chunks(b, |b|, 1));
    }
  }

  // ----- runs of items

  /** Checks the `n` items of `size` bytes filling `b`. */
  method CheckRun(item: Type, n: nat, size: nat, b: seq<byte>, at: nat) returns (r: Verdict)
    requires Wf(item) && Good(item) && (SizeOf(item) == Fixed(size) && |b| == Times(n, size))
    ensures Judged(r, AllValid(item, Chunks(b, n, size)), at, |b|)
    decreases item, 3
  {
    hide Wf, Good, Valid, SizeOf, Times;
    for i := 0 to n
      invariant forall j :: 0 <= j < i ==> Valid(item, Chunks(b, n, size)[j])
    {
      ChunkAt(b, n, size, i);
      r := CheckFixed(item, b[Times(i, size)..Times(i, size) + size], at + Times(i, size));
      if r.Reject? {
        return;
      }
    }
    r := Accept;
  }

  // ----- prefixed items

  /** What walking the items from `pos` on, `left` of them, gives of the whole walk from `count`. */
  ghost predicate Walked(b: seq<byte>, count: nat, n: nat, w: nat, pos: nat, done: seq<seq<byte>>)
    requires w in {1, 2} && count <= |b|
  {
    && count <= pos <= |b| && |done| <= n
    && var whole, rest := SplitItems(b[count..], n, w), SplitItems(b[pos..], n - |done|, w);
       (whole.Some? <==> rest.Some?) && (whole.Some? ==> whole.value == done + rest.value)
  }

  lemma {:induction false} WalkStep(b: seq<byte>, count: nat, n: nat, w: nat, pos: nat, done: seq<seq<byte>>)
    requires w in {1, 2} && count <= |b| && Walked(b, count, n, w, pos, done) && |done| + 1 < n
    ensures |b| - pos < w ==> SplitItems(b[count..], n, w).None?
    ensures w <= |b| - pos ==>
              var size := ReadLen(b[pos..], w);
              && (|b| - pos - w < size ==> SplitItems(b[count..], n, w).None?)
              && (size <= |b| - pos - w ==> Walked(b, count, n, w, pos + w + size, done + [b[pos + w..pos + w + size]]))
  {
    hide ReadLen;
    if w <= |b| - pos {
      var size := ReadLen(b[pos..], w);
      if size <= |b| - pos - w {
        assert b[pos..][w..w + size] == b[pos + w..pos + w + size];
        assert b[pos..][w + size..] == b[pos + w + size..];
        var rest := SplitItems(b[pos + w + size..], n - |done| - 1, w);
        assert rest.Some? ==>
            done + ([b[pos + w..pos + w + size]] + rest.value) == (done + [b[pos + w..pos + w + size]]) + rest.value;
      }
    }
  }

  predicate PrefixedValid(element: Type, b: seq<byte>, count: nat, prefix: nat)
    requires Wf(element) && Good(element) && count in {1, 2} && prefix in {1, 2}
  {
    && count <= |b|
    && SplitItems(b[count..], ReadLen(b, count), prefix).Some?
    && AllValid(element, SplitItems(b[count..], ReadLen(b, count), prefix).value)
  }

  lemma {:induction false} LastItem(element: Type, b: seq<byte>, count: nat, prefix: nat, pos: nat, done: seq<seq<byte>>)
    requires Wf(element) && Good(element) && count in {1, 2} && prefix in {1, 2} && count <= |b|
    requires Walked(b, count, ReadLen(b, count), prefix, pos, done) && AllValid(element, done)
    requires |done| + 1 == ReadLen(b, count)
    ensures PrefixedValid(element, b, count, prefix) <==> Valid(element, b[pos..])
  {
    hide ReadLen, Valid, Wf, Good;
    var whole := SplitItems(b[count..], ReadLen(b, count), prefix).value;
    assert whole == done + [b[pos..]] && whole[|done|] == b[pos..];
    if Valid(element, b[pos..]) {
      forall i | 0 <= i < |whole| ensures Valid(element, whole[i]) {
        assert i < |done| ==> whole[i] == done[i];
      }
    }
  }

  lemma {:induction false} ItemRejected(element: Type, b: seq<byte>, count: nat, prefix: nat, pos: nat, done: seq<seq<byte>>)
    requires Wf(element) && Good(element) && count in {1, 2} && prefix in {1, 2} && count <= |b|
    requires Walked(b, count, ReadLen(b, count), prefix, pos, done) && done != [] && !Valid(element, done[|done| - 1])
    ensures !PrefixedValid(element, b, count, prefix)
  {
    hide ReadLen, Valid, Wf, Good;
    var split := SplitItems(b[count..], ReadLen(b, count), prefix);
    assert split.Some? ==> split.value[|done| - 1] == done[|done| - 1];
  }

  /** `de::prefixed`: the items fill `b` exactly, and each is valid; returns their count. */
  method CheckPrefixed(element: Type, b: seq<byte>, count: nat, prefix: nat, at: nat) returns (r: Verdict, len: nat)
    requires Wf(element) && Good(element) && SizeOf(element).Var? && count in {1, 2} && prefix in {1, 2}
    ensures Judged(r, PrefixedValid(element, b, count, prefix), at, |b|)
    ensures r.Accept? ==> count <= |b| && len == ReadLen(b, count)
    decreases element, 3
  {
    hide Wf, Good, Valid, SizeOf, EmitsVar, Walked, SplitItems, ReadLen;
    r, len := AtLeast(b, count, at), 0;
    if r.Reject? {
      return;
    }
    len := ReadLen(b, count);
    var pos := count;
    ghost var done: seq<seq<byte>> := [];
    WalkStarts(b, count, len, prefix);
    for index := 0 to len
      invariant |done| == index && count <= pos <= |b|
      invariant if index == 0 then pos == count else index < len
      invariant Walked(b, count, len, prefix, pos, done) && AllValid(element, done)
    {
      if index + 1 == len {
        r := CheckElement(element, b[pos..], at + pos);
        LastItem(element, b, count, prefix, pos, done);
        return;
      }
      WalkStep(b, count, len, prefix, pos, done);
      if |b| - pos < prefix {
        return Reject(at + pos, BadLength), len;
      }
      var size := ReadLen(b[pos..], prefix);
      pos := pos + prefix;
      if |b| - pos < size {
        return Reject(at + pos, BadLength), len;
      }
      r := CheckElement(element, b[pos..pos + size], at + pos);
      done := done + [b[pos..pos + size]];
      pos := pos + size;
      if r.Reject? {
        ItemRejected(element, b, count, prefix, pos, done);
        return;
      }
    }
    // The loop returned unless there were no items, and then nothing may follow.
    NoneToWalk(element, b, count, prefix);
    if pos != |b| {
      return Reject(at + pos, BadLength), len;
    }
    return Accept, 0;
  }

  lemma {:induction false} WalkStarts(b: seq<byte>, count: nat, n: nat, w: nat)
    requires w in {1, 2} && count <= |b|
    ensures Walked(b, count, n, w, count, [])
  {
    var split := SplitItems(b[count..], n, w);
    assert split.Some? ==> split.value == [] + split.value;
  }

  lemma {:induction false} NoneToWalk(element: Type, b: seq<byte>, count: nat, prefix: nat)
    requires Wf(element) && Good(element) && count in {1, 2} && prefix in {1, 2} && count <= |b|
    ensures ReadLen(b, count) == 0 ==> (PrefixedValid(element, b, count, prefix) <==> count == |b|)
  {
    hide ReadLen, Valid, Wf, Good;
  }

  method CheckElement(element: Type, b: seq<byte>, at: nat) returns (r: Verdict)
    requires Wf(element) && Good(element) && SizeOf(element).Var?
    ensures Judged(r, Valid(element, b), at, |b|)
    decreases element, 2
  {
    if EmitsVar(element) {
      r := CheckVar(element, b, at);
    } else {
      VarElided(element, b);
      r := Accept;
    }
  }

  // ----- collections

  method CheckCollection(kind: CollectionKind, element: Type, lengths: Lengths, b: seq<byte>, at: nat) returns (r: Verdict)
    requires Wf(Collection(kind, element, lengths)) && Good(Collection(kind, element, lengths))
    ensures Judged(r, Valid(Collection(kind, element, lengths), b), at, |b|)
    decreases element, 4
  {
    match SequenceOf(SizeOf(element), lengths) {
      case Packed(size) =>
        // Any number of bytes is a number of one-byte items, so nothing is checked of it.
        if size != 1 && |b| % size != 0 {
          return Reject(at, BadLength);
        }
        var n := |b| / size;
        r := LengthVerdict(lengths, n, at);
        if r.Reject? {
          return;
        }
        PackedCount(|b|, size);
        if EmitsFixed(element) {
          r := CheckRun(element, n, size, b, at);
        } else {
          AllElided(element, Chunks(b, n, size));
        }
      case Counted(count) =>
        CountWidth(lengths);
        r := Exact(b, count, at);
        if r.Accept? {
          r := LengthVerdict(lengths, ReadLen(b, count), at);
        }
      case Prefixed(count, prefix) =>
        CountWidth(lengths);
        PrefixWidth(element);
        var n;
        r, n := CheckPrefixed(element, b, count, prefix, at);
        if r.Accept? {
          r := LengthVerdict(lengths, n, at);
        }
    }
  }

  // ----- map entries

  /** The key of a map's entry, then its value, each where it has checks. */
  method CheckEntry(key: Type, value: Type, b: seq<byte>, at: nat) returns (r: Verdict)
    requires Wf(Pair(key, value)) && Good(Pair(key, value)) && SizeOf(Pair(key, value)) == Fixed(|b|)
    ensures Judged(r, Valid(Pair(key, value), b), at, |b|)
    decreases Pair(key, value), 0
  {
    PairFixed(key, value);
    var size := SizeOf(key).bytes;
    r := Accept;
    if EmitsFixed(key) {
      r := CheckFixed(key, b[..size], at);
      if r.Reject? {
        return;
      }
    } else {
      FixedElided(key, b[..size]);
    }
    if EmitsFixed(value) {
      r := CheckFixed(value, b[size..], at + size);
    } else {
      FixedElided(value, b[size..]);
    }
  }

  method CheckVarEntry(key: Type, value: Type, b: seq<byte>, at: nat) returns (r: Verdict)
    requires Wf(Pair(key, value)) && Good(Pair(key, value)) && SizeOf(Pair(key, value)).Var?
    ensures Judged(r, Valid(Pair(key, value), b), at, |b|)
    decreases Pair(key, value), 0
  {
    var size := SizeOf(key).bytes;
    r := AtLeast(b, size, at);
    if r.Reject? {
      return;
    }
    if EmitsFixed(key) {
      r := CheckFixed(key, b[..size], at);
      if r.Reject? {
        return;
      }
    } else {
      FixedElided(key, b[..size]);
    }
    r := CheckElement(value, b[size..], at + size);
  }

  // ----- unions

  method CheckVariant(variant: Variant, b: seq<byte>, at: nat) returns (r: Verdict)
    requires variant.Data? ==> Wf(variant.ty) && Good(variant.ty)
    ensures Judged(r, VariantValid(variant, b), at, |b|)
    decreases variant
  {
    if variant.Unit? {
      r := Exact(b, 0, at);
    } else if SizeOf(variant.ty).Fixed? {
      r := Exact(b, SizeOf(variant.ty).bytes, at);
      if r.Accept? {
        r := CheckFixed(variant.ty, b, at);
      } else {
        ValidSize(variant.ty, b);
      }
    } else {
      r := CheckElement(variant.ty, b, at);
    }
  }

  method CheckUnion(variants: seq<Variant>, b: seq<byte>, at: nat) returns (r: Verdict)
    requires Wf(Union(variants)) && Good(Union(variants))
    ensures Judged(r, Valid(Union(variants), b), at, |b|)
    decreases variants, 0
  {
    TagTwoBytes(|variants|);
    var w := TagWidth(|variants|);
    r := AtLeast(b, w, at);
    if r.Reject? {
      return;
    }
    var tag := ReadLen(b, w);
    if 1 <= tag <= |variants| {
      r := CheckVariant(variants[tag - 1], b[w..], at + w);
    } else {
      r := Reject(at, BadTag);
    }
  }

  /** Valid bytes of a fixed-size type are as many as its size. */
  lemma {:induction false} ValidSize(ty: Type, b: seq<byte>)
    requires Wf(ty) && Good(ty) && SizeOf(ty).Fixed?
    ensures Valid(ty, b) ==> |b| == SizeOf(ty).bytes
  {
    hide Valid, Wf, Good, SizeOf;
    if Valid(ty, b) {
      Canonical.Canonical(ty, b);
    }
  }

  // ----- objects

  /** What the validator of an object works from. */
  predicate ObjectGood(fields: seq<Field>) {
    WfFields(fields) && Wf(Struct(fields)) && Good(Struct(fields))
  }

  /** A field's value, where it is fixed-size and required. */
  predicate AtValid(fields: seq<Field>, b: seq<byte>, i: nat)
    requires ObjectGood(fields) && i < |fields| && Head(Members(fields)) <= |b|
  {
    Members(fields)[i].IsAt() ==> Valid(fields[i].ty, ExtractAt(Members(fields), b, i))
  }

  /** A field's value, where it is fixed-size and optional: in bounds and valid when present. */
  predicate OptionalValid(fields: seq<Field>, b: seq<byte>, i: nat)
    requires ObjectGood(fields) && i < |fields| && Head(Members(fields)) <= |b|
  {
    var ms := Members(fields);
    ms[i].IsOptional() && FieldBit(ms, b, i, 0) ==>
      var at, size := Position(ms, b, i), ms[i].size.bytes;
      at + size <= |b| && Valid(fields[i].ty, b[at..at + size])
  }

  /** A field's slot: empty when absent, valid when present. */
  predicate SlotValid(fields: seq<Field>, b: seq<byte>, i: nat)
    requires ObjectGood(fields) && i < |fields| && Head(Members(fields)) <= |b|
  {
    var ms := Members(fields);
    ms[i].IsVar() ==>
      && FieldBegin(ms, b, i) <= FieldEnd(ms, b, i) <= |b|
      && if ms[i].optional && !FieldBit(ms, b, i, 0) then FieldBegin(ms, b, i) == FieldEnd(ms, b, i)
         else Valid(fields[i].ty, b[FieldBegin(ms, b, i)..FieldEnd(ms, b, i)])
  }

  /** What is checked of an object before its var section's slots. */
  predicate FrontValid(fields: seq<Field>, b: seq<byte>)
    requires ObjectGood(fields)
  {
    var ms := Members(fields);
    && Head(ms) <= |b|
    && UnusedClear(ms, b)
    && FlagsCanonical(ms, b)
    && (forall i :: 0 <= i < |fields| ==> AtValid(fields, b, i))
    && (forall i :: 0 <= i < |fields| ==> OptionalValid(fields, b, i))
    && Position(ms, b, |ms|) <= |b|
    && (Vars(ms) == 0 ==> Position(ms, b, |ms|) == |b|)
    && BoundariesOrdered(b, Position(ms, b, |ms|), Boundaries(ms), BoundaryWidth(ms), BoundaryCount(ms))
  }

  /** The checks of an object, in order, are those of its layout and of its fields. */
  lemma {:induction false} ObjectVerdict(fields: seq<Field>, b: seq<byte>)
    requires ObjectGood(fields)
    ensures Valid(Struct(fields), b) <==>
              FrontValid(fields, b) && forall i :: 0 <= i < |fields| ==> SlotValid(fields, b, i)
  {
    hide Wf, Good, Valid, ObjectValid, FieldValid, FrontValid, Extract;
    StructValid(fields, b);
    FrontHead(fields, b);
    if FrontValid(fields, b) && forall i :: 0 <= i < |fields| ==> SlotValid(fields, b, i) {
      ObjectAccepted(fields, b);
    }
    if ObjectValid(Members(fields), b) {
      ValidHead(Members(fields), b);
      forall i | 0 <= i < |fields|
        ensures FieldValid(fields[i], Extract(Members(fields), b, i)) <==>
                  AtValid(fields, b, i) && OptionalValid(fields, b, i) && SlotValid(fields, b, i)
      {
        FieldVerdict(fields, b, i);
      }
      FrontOfValid(fields, b);
    }
  }

  lemma {:induction false} StructValid(fields: seq<Field>, b: seq<byte>)
    requires ObjectGood(fields)
    ensures Head(Members(fields)) <= MAX_SIZE
    ensures forall i :: 0 <= i < |fields| ==> Wf(fields[i].ty) && Good(fields[i].ty)
    ensures Valid(Struct(fields), b) <==>
              && ObjectValid(Members(fields), b)
              && forall i :: 0 <= i < |fields| ==> FieldValid(fields[i], Extract(Members(fields), b, i))
  {
    hide ObjectValid, Extract, SizeOf;
  }

  lemma {:induction false} FrontHead(fields: seq<Field>, b: seq<byte>)
    requires ObjectGood(fields)
    ensures FrontValid(fields, b) ==> Head(Members(fields)) <= |b|
  {
  }

  lemma {:induction false} FrontOfValid(fields: seq<Field>, b: seq<byte>)
    requires ObjectGood(fields) && ObjectValid(Members(fields), b)
    ensures Head(Members(fields)) <= |b|
    ensures (forall i :: 0 <= i < |fields| ==> AtValid(fields, b, i) && OptionalValid(fields, b, i)) <==> FrontValid(fields, b)
  {
    hide Wf, Good, Valid, UnusedClear, FlagsCanonical, Position, BoundariesOrdered, AtValid, OptionalValid, SizeOf;
  }

  lemma {:induction false} ObjectAccepted(fields: seq<Field>, b: seq<byte>)
    requires ObjectGood(fields) && FrontValid(fields, b) && forall i :: 0 <= i < |fields| ==> SlotValid(fields, b, i)
    ensures ObjectValid(Members(fields), b)
  {
    hide Wf, Good, Valid, UnusedClear, FlagsCanonical, Position, BoundariesOrdered, AtValid, OptionalValid, SizeOf, FieldBegin, FieldEnd;
    var ms := Members(fields);
    forall i | 0 <= i < |ms| && ms[i].IsVar() && ms[i].optional && !FieldBit(ms, b, i, 0)
      ensures FieldBegin(ms, b, i) == FieldEnd(ms, b, i)
    {
      assert SlotValid(fields, b, i);
    }
  }

  lemma {:induction false} FieldVerdict(fields: seq<Field>, b: seq<byte>, i: nat)
    requires ObjectGood(fields) && i < |fields| && ObjectValid(Members(fields), b)
    ensures FieldValid(fields[i], Extract(Members(fields), b, i)) <==>
              AtValid(fields, b, i) && OptionalValid(fields, b, i) && SlotValid(fields, b, i)
  {
    hide Valid, Wf, Good, SizeOf, Position, FieldBegin, FieldEnd, BoundariesOrdered, UnusedClear, FlagsCanonical, Head, Bit;
    var ms := Members(fields);
    if ms[i].IsVar() {
      SlotSafe(ms, b, i);
      AbsentSlot(ms, b, i);
    } else if ms[i].IsOptional() && FieldBit(ms, b, i, 0) {
      OptionalSafe(ms, b, i);
    }
  }

  lemma {:induction false} AbsentSlot(ms: seq<Member>, b: seq<byte>, i: nat)
    requires i < |ms| && ms[i].IsVar() && ObjectValid(ms, b)
    ensures ms[i].optional && !FieldBit(ms, b, i, 0) ==> FieldBegin(ms, b, i) == FieldEnd(ms, b, i)
  {
    hide Position, FieldBegin, FieldEnd, BoundariesOrdered, UnusedClear, FlagsCanonical, Bit;
  }

  /** One past the last bit a slot claims, 0 when none does. */
  method UsedBits(ms: seq<Member>) returns (bits: nat)
    ensures bits == Bits(ms)
  {
    bits := 0;
    for i := 0 to |ms|
      invariant bits == Bits(ms[..i])
    {
      PrefixStep(ms, i);
      var last := match SlotOf(ms, i)
        case BitSlot(bit) => bit + 1
        case OptionalSlot(presence) => presence + 1
        case OptionalBitSlot(_, value) => value + 1
        case VarSlot(_, Some(presence)) => presence + 1
        case _ => 0;
      bits := if last > bits then last else bits;
    }
    assert ms[..|ms|] == ms;
  }

  /** The bits no field claims, then the value bit of each absent `option<bool>`. */
  method CheckBits(ms: seq<Member>, b: seq<byte>, at: nat) returns (r: Verdict)
    requires Head(ms) <= |b|
    ensures Judged(r, UnusedClear(ms, b) && FlagsCanonical(ms, b), at, |b|)
  {
    hide Head, Bit, Shr;
    HeadParts(ms);
    var bits := UsedBits(ms);
    if bits % 8 != 0 && Shr(b[Bitmap(ms) - 1], bits % 8) != 0 {
      return Reject(at + Bitmap(ms) - 1, Padding);
    }
    for i := 0 to |ms|
      invariant forall j :: 0 <= j < i && ms[j].flag && ms[j].optional ==> FieldBit(ms, b, j, 0) || !FieldBit(ms, b, j, 1)
    {
      if ms[i].flag && ms[i].optional && !FieldBit(ms, b, i, 0) && FieldBit(ms, b, i, 1) {
        PrefixStep(ms, i);
        return Reject(at + (Bits(ms[..i]) + 1) / 8, Padding);
      }
    }
    return Accept;
  }

  /** The required fixed-size values that have checks. */
  method CheckAts(fields: seq<Field>, b: seq<byte>, at: nat) returns (r: Verdict)
    requires ObjectGood(fields) && Head(Members(fields)) <= |b|
    ensures Judged(r, forall i :: 0 <= i < |fields| ==> AtValid(fields, b, i), at, |b|)
    decreases fields, 0
  {
    hide Valid, Wf, Good, Head, SizeOf, EmitsFixed;
    for i := 0 to |fields|
      invariant forall j :: 0 <= j < i ==> AtValid(fields, b, j)
    {
      r := CheckAt(fields, b, at, i);
      if r.Reject? {
        return;
      }
    }
    return Accept;
  }

  method CheckAt(fields: seq<Field>, b: seq<byte>, at: nat, i: nat) returns (r: Verdict)
    requires ObjectGood(fields) && Head(Members(fields)) <= |b| && i < |fields|
    ensures Judged(r, AtValid(fields, b, i), at, |b|)
    decreases fields[i]
  {
    hide Valid, EmitsFixed, Head, SizeOf;
    var ms := Members(fields);
    r := Accept;
    if ms[i].IsAt() {
      HeadParts(ms);
      PrefixStep(ms, i);
      if FieldEmits(fields[i]) {
        r := CheckFixed(fields[i].ty, ExtractAt(ms, b, i), at + SlotOf(ms, i).at);
      } else {
        FieldElided(fields[i], ExtractAt(ms, b, i));
      }
    }
  }

  /** The optional fixed-size values present; returns where the var section starts. */
  method CheckOptionals(fields: seq<Field>, b: seq<byte>, at: nat) returns (r: Verdict, pos: nat)
    requires ObjectGood(fields) && Head(Members(fields)) <= |b|
    ensures Judged(
              r,
              && (forall i :: 0 <= i < |fields| ==> OptionalValid(fields, b, i))
              && Position(Members(fields), b, |fields|) <= |b|,
              at,
              |b|)
    ensures r.Accept? ==> pos == Position(Members(fields), b, |fields|)
    decreases fields, 0
  {
    hide Valid, Wf, Good, Head, SizeOf, EmitsFixed, Position;
    var ms := Members(fields);
    pos := Head(ms);
    PositionFirst(ms, b);
    for i := 0 to |fields|
      invariant pos == Position(ms, b, i) <= |b|
      invariant forall j :: 0 <= j < i ==> OptionalValid(fields, b, j)
    {
      r := CheckOptional(fields, b, at, i, pos);
      if r.Reject? {
        PositionMonotone(ms, b, i + 1);
        return;
      }
      PositionStep(ms, b, i);
      if ms[i].IsOptional() && FieldBit(ms, b, i, 0) {
        pos := pos + ms[i].size.bytes;
      }
    }
    return Accept, pos;
  }

  method CheckOptional(fields: seq<Field>, b: seq<byte>, at: nat, i: nat, pos: nat) returns (r: Verdict)
    requires ObjectGood(fields) && Head(Members(fields)) <= |b| && i < |fields|
    requires pos == Position(Members(fields), b, i) <= |b|
    ensures Judged(r, OptionalValid(fields, b, i) && Position(Members(fields), b, i + 1) <= |b|, at, |b|)
    decreases fields[i]
  {
    hide Valid, EmitsFixed, Head, SizeOf, Position;
    var ms := Members(fields);
    PositionStep(ms, b, i);
    r := Accept;
    if ms[i].IsOptional() && FieldBit(ms, b, i, 0) {
      var size := ms[i].size.bytes;
      r := AtLeast(b, pos + size, at);
      if r.Reject? {
        return;
      }
      if FieldEmits(fields[i]) {
        r := CheckFixed(fields[i].ty, b[pos..pos + size], at + pos);
      } else {
        FieldElided(fields[i], b[pos..pos + size]);
      }
    }
  }

  /** `ends` are the boundaries of `w` bytes starting at `bounds`. */
  predicate AreEnds(b: seq<byte>, bounds: nat, w: nat, ends: seq<nat>)
    requires w in {1, 2} && bounds + Times(|ends|, w) <= |b|
  {
    var k := |ends| - 1;
    ends != [] ==> AreEnds(b, bounds, w, ends[..k]) && ends[k] == BoundAt(b, bounds + Times(k, w), w)
  }

  lemma {:induction false} EndIs(b: seq<byte>, bounds: nat, w: nat, ends: seq<nat>, k: nat)
    requires w in {1, 2} && bounds + Times(|ends|, w) <= |b| && AreEnds(b, bounds, w, ends) && k < |ends|
    ensures bounds + Times(k, w) + w <= |b| && ends[k] == BoundAt(b, bounds + Times(k, w), w)
  {
    hide BoundAt;
    if k < |ends| - 1 {
      EndIs(b, bounds, w, ends[..|ends| - 1], k);
    }
  }

  /** One more boundary, in order after those before it. */
  lemma {:induction false} NextBoundary(b: seq<byte>, start: nat, bounds: nat, w: nat, ends: seq<nat>)
    requires w in {1, 2} && bounds + Times(|ends| + 1, w) <= |b|
    requires AreEnds(b, bounds, w, ends) && BoundariesOrdered(b, start, bounds, w, |ends|)
    ensures var end, previous := BoundAt(b, bounds + Times(|ends|, w), w), if ends == [] then start else ends[|ends| - 1];
            && AreEnds(b, bounds, w, ends + [end])
            && (BoundariesOrdered(b, start, bounds, w, |ends| + 1) <==> previous <= end <= |b|)
  {
    hide BoundAt;
    var end := BoundAt(b, bounds + Times(|ends|, w), w);
    assert (ends + [end])[..|ends|] == ends;
    if ends != [] {
      EndIs(b, bounds, w, ends, |ends| - 1);
    }
  }

  lemma {:induction false} OrderedPrefix(b: seq<byte>, start: nat, bounds: nat, w: nat, k: nat, n: nat)
    requires w in {1, 2} && bounds + Times(n, w) <= |b| && k <= n
    ensures bounds + Times(k, w) <= |b|
    ensures BoundariesOrdered(b, start, bounds, w, n) ==> BoundariesOrdered(b, start, bounds, w, k)
  {
    hide BoundAt, SlotBegin;
    if k < n {
      OrderedPrefix(b, start, bounds, w, k, n - 1);
    }
  }

  /** `de::boundaries`: each boundary lies between the previous one and the end; returns them. */
  method ReadBoundaries(b: seq<byte>, start: nat, bounds: nat, w: nat, n: nat, at: nat) returns (r: Verdict, ends: seq<nat>)
    requires w in {1, 2} && bounds + Times(n, w) <= |b|
    ensures Judged(r, BoundariesOrdered(b, start, bounds, w, n), at, |b|)
    ensures r.Accept? ==> |ends| == n && AreEnds(b, bounds, w, ends)
  {
    hide BoundAt, BoundariesOrdered, AreEnds;
    ends := [];
    var previous := start;
    NoEnds(b, start, bounds, w);
    for k := 0 to n
      invariant |ends| == k && bounds + Times(k, w) <= |b| && previous == if ends == [] then start else ends[k - 1]
      invariant AreEnds(b, bounds, w, ends) && BoundariesOrdered(b, start, bounds, w, k)
    {
      OrderedPrefix(b, start, bounds, w, k + 1, n);
      NextBoundary(b, start, bounds, w, ends);
      var pos := bounds + Times(k, w);
      var end := BoundAt(b, pos, w);
      if end < previous || end > |b| {
        return Reject(at + pos, Boundary), ends;
      }
      ends := ends + [end];
      previous := end;
    }
    return Accept, ends;
  }

  lemma {:induction false} NoEnds(b: seq<byte>, start: nat, bounds: nat, w: nat)
    requires w in {1, 2} && bounds <= |b|
    ensures AreEnds(b, bounds, w, []) && BoundariesOrdered(b, start, bounds, w, 0)
  {
  }

  /** The boundaries of an object, read. */
  predicate EndsOf(ms: seq<Member>, b: seq<byte>, ends: seq<nat>) {
    Head(ms) <= |b| && |ends| == BoundaryCount(ms) && AreEnds(b, Boundaries(ms), BoundaryWidth(ms), ends)
  }

  lemma {:induction false} EndAt(b: seq<byte>, start: nat, bounds: nat, w: nat, ends: seq<nat>, k: nat)
    requires w in {1, 2} && bounds + Times(|ends|, w) <= |b| && start <= |b|
    requires AreEnds(b, bounds, w, ends) && BoundariesOrdered(b, start, bounds, w, |ends|) && k <= |ends|
    ensures k > 0 ==> bounds + Times(k - 1, w) + w <= |b|
    ensures k < |ends| ==> bounds + Times(k, w) + w <= |b|
    ensures SlotBegin(b, start, bounds, w, k) == (if k == 0 then start else ends[k - 1]) <= |b|
    ensures SlotEnd(b, bounds, w, |ends| + 1, k) == (if k == |ends| then |b| else ends[k])
    ensures SlotBegin(b, start, bounds, w, k) <= SlotEnd(b, bounds, w, |ends| + 1, k) <= |b|
  {
    hide BoundAt, BoundariesOrdered, AreEnds;
    if k > 0 {
      EndIs(b, bounds, w, ends, k - 1);
      OrderedAt(b, start, bounds, w, |ends|, k - 1);
    }
    if k < |ends| {
      EndIs(b, bounds, w, ends, k);
      OrderedAt(b, start, bounds, w, |ends|, k);
    }
  }

  lemma {:induction false} SlotRange(ms: seq<Member>, b: seq<byte>, ends: seq<nat>, i: nat)
    requires i < |ms| && ms[i].IsVar() && EndsOf(ms, b, ends)
    requires BoundariesOrdered(b, Position(ms, b, |ms|), Boundaries(ms), BoundaryWidth(ms), BoundaryCount(ms))
    requires Position(ms, b, |ms|) <= |b|
    ensures Vars(ms[..i]) < Vars(ms)
    ensures var k := Vars(ms[..i]);
            && FieldBegin(ms, b, i) == (if k == 0 then Position(ms, b, |ms|) else ends[k - 1])
            && FieldEnd(ms, b, i) == (if k + 1 == Vars(ms) then |b| else ends[k])
            && FieldBegin(ms, b, i) <= FieldEnd(ms, b, i) <= |b|
  {
    hide BoundAt, Position, BoundariesOrdered, AreEnds, SlotBegin, SlotEnd, Boundaries, BoundaryWidth;
    PrefixStep(ms, i);
    EndAt(b, Position(ms, b, |ms|), Boundaries(ms), BoundaryWidth(ms), ends, Vars(ms[..i]));
    if Vars(ms[..i]) + 1 == Vars(ms) {
      LastSlot(ms, b, i);
    }
  }

  lemma {:induction false} LastSlot(ms: seq<Member>, b: seq<byte>, i: nat)
    requires i < |ms| && ms[i].IsVar() && Head(ms) <= |b| && Vars(ms[..i]) + 1 == Vars(ms)
    ensures FieldEnd(ms, b, i) == |b|
  {
  }

  /** The slot of a var field: its checks, or that it is empty when absent. */
  method CheckSlot(fields: seq<Field>, b: seq<byte>, at: nat, pos: nat, ends: seq<nat>, i: nat) returns (r: Verdict)
    requires ObjectGood(fields) && FrontValid(fields, b) && i < |fields|
    requires pos == Position(Members(fields), b, |fields|) && EndsOf(Members(fields), b, ends)
    ensures Judged(r, SlotValid(fields, b, i), at, |b|)
    decreases fields[i]
  {
    hide Valid, EmitsVar, Head, SizeOf, Position, BoundariesOrdered, FieldBegin, FieldEnd;
    var ms := Members(fields);
    r := Accept;
    if ms[i].IsVar() {
      SlotRange(ms, b, ends, i);
      var k := Vars(ms[..i]);
      var start := if k == 0 then pos else ends[k - 1];
      var end := if k + 1 == Vars(ms) then |b| else ends[k];
      if ms[i].optional && !FieldBit(ms, b, i, 0) {
        r := if start == end then Accept else Reject(at + start, Padding);
      } else {
        r := CheckElement(fields[i].ty, b[start..end], at + start);
      }
    }
  }

  /** `validate_at` of a struct or message. */
  method ValidateObject(fields: seq<Field>, b: seq<byte>, at: nat) returns (r: Verdict)
    requires ObjectGood(fields)
    ensures Judged(r, Valid(Struct(fields), b), at, |b|)
    decreases fields, 1
  {
    hide Valid, Wf, Good, Head, SizeOf, Position, UnusedClear, FlagsCanonical, BoundariesOrdered, AtValid, OptionalValid,
      SlotValid, AreEnds, BoundaryWidth, Boundaries;
    var ms := Members(fields);
    ObjectVerdict(fields, b);
    FixedVerdict(fields, b);
    r := if !Varies(ms) then Exact(b, Head(ms), at) else AtLeast(b, Head(ms), at);
    if r.Reject? {
      return;
    }
    r := CheckBits(ms, b, at);
    if r.Reject? {
      return;
    }
    r := CheckAts(fields, b, at);
    if r.Reject? || !Varies(ms) {
      return;
    }
    var pos;
    r, pos := CheckOptionals(fields, b, at);
    if r.Reject? {
      return;
    }
    if Vars(ms) == 0 {
      r := Exact(b, pos, at);
      if r.Reject? {
        return;
      }
    }
    HeadParts(ms);
    BoundariesRoom(ms);
    var ends;
    r, ends := ReadBoundaries(b, pos, Boundaries(ms), BoundaryWidth(ms), BoundaryCount(ms), at);
    if r.Reject? {
      return;
    }
    for i := 0 to |fields|
      invariant forall j :: 0 <= j < i ==> SlotValid(fields, b, j)
    {
      r := CheckSlot(fields, b, at, pos, ends, i);
      if r.Reject? {
        return;
      }
    }
    r := Accept;
  }

  lemma {:induction false} BoundariesRoom(ms: seq<Member>)
    ensures Head(ms) == Boundaries(ms) + Times(BoundaryCount(ms), BoundaryWidth(ms))
  {
  }

  /** An object of no varying size is valid when its head is. */
  lemma {:induction false} FixedVerdict(fields: seq<Field>, b: seq<byte>)
    requires ObjectGood(fields)
    ensures !Varies(Members(fields)) ==>
              (Valid(Struct(fields), b) <==>
                 && |b| == Head(Members(fields))
                 && UnusedClear(Members(fields), b) && FlagsCanonical(Members(fields), b)
                 && forall i :: 0 <= i < |fields| ==> AtValid(fields, b, i))
  {
    hide Position, BoundariesOrdered;
    var ms := Members(fields);
    if !Varies(ms) {
      ObjectVerdict(fields, b);
      FixedFront(ms, b);
    }
  }

  lemma {:induction false} FixedFront(ms: seq<Member>, b: seq<byte>)
    requires !Varies(ms)
    ensures forall i :: 0 <= i < |ms| ==> !ms[i].IsOptional() && !ms[i].IsVar()
    ensures Vars(ms) == 0 && BoundaryCount(ms) == 0
    ensures Head(ms) <= |b| ==> Position(ms, b, |ms|) == Head(ms)
    ensures Head(ms) <= |b| ==> BoundariesOrdered(b, Position(ms, b, |ms|), Boundaries(ms), BoundaryWidth(ms), 0)
  {
    FixedHead(ms);
    NoOptionals(ms);
    assert ms[..|ms|] == ms;
  }

  // ----- every type

  /** The checks of a fixed-size type, over as many bytes as it takes; `at` only places the error. */
  method CheckFixed(ty: Type, b: seq<byte>, at: nat) returns (r: Verdict)
    requires Wf(ty) && Good(ty) && SizeOf(ty) == Fixed(|b|)
    ensures Judged(r, Valid(ty, b), at, |b|)
    decreases ty, 1
  {
    match ty {
      case Atomic(s) => r := ScalarVerdict(s, b, at);
      case Blob(text, _) => r := if text && !Utf8(b) then Reject(at + ValidUpTo(b), BadUtf8) else Accept;
      case Array(item, count) =>
        ArrayBytes(SizeOf(item).bytes, count);
        if count == 0 {
          r := Accept;
        } else if EmitsFixed(item) {
          r := CheckRun(item, count, SizeOf(item).bytes, b, at);
        } else {
          AllElided(item, Chunks(b, count, SizeOf(item).bytes));
          r := Accept;
        }
      case Pair(key, value) => r := CheckEntry(key, value, b, at);
      case Newtype(target) => r := CheckFixed(target, b, at);
      case Struct(fields) =>
        if IsChecked(fields) {
          r := ValidateObject(fields, b, at);
        } else {
          StructElided(fields, b);
          r := Accept;
        }
    }
  }

  /** The checks of a variable-size type, over all the bytes it is given; `at` only places the error. */
  method CheckVar(ty: Type, b: seq<byte>, at: nat) returns (r: Verdict)
    requires Wf(ty) && Good(ty) && SizeOf(ty).Var?
    ensures Judged(r, Valid(ty, b), at, |b|)
    decreases ty, 1
  {
    match ty {
      case Blob(text, lengths) =>
        if text && !Utf8(b) {
          r := Reject(at + ValidUpTo(b), BadUtf8);
        } else {
          r := LengthVerdict(lengths, |b|, at);
        }
      case Collection(kind, element, lengths) => r := CheckCollection(kind, element, lengths, b, at);
      case Pair(key, value) => r := CheckVarEntry(key, value, b, at);
      case Newtype(target) => r := CheckVar(target, b, at);
      case Struct(fields) => r := ValidateObject(fields, b, at);
      case Union(variants) => r := CheckUnion(variants, b, at);
    }
  }

  /** A whole message: within the message size, and exactly one encoding. */
  method Validate(ty: Type, b: seq<byte>) returns (r: Verdict)
    requires Wf(ty) && Good(ty) && (ty.Struct? || ty.Union?)
    ensures Judged(r, |b| <= MAX_SIZE && Valid(ty, b), 0, |b|)
  {
    if |b| > MAX_SIZE {
      return Reject(MAX_SIZE, TooLarge);
    }
    if ty.Struct? {
      r := ValidateObject(ty.fields, b, 0);
    } else {
      r := CheckUnion(ty.variants, b, 0);
    }
  }
}
