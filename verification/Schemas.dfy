/**
 Lowered schemas: declarations referring to each other by index, the references that make a type
 recursive, and the type a name stands for once no type is.
 */
module Schemas {
  import opened Scalars
  import opened Types

  /** A type as written, `bool` and the like aside from what names it. */
  datatype SType =
    | SScalar(scalar: Scalar)
    | SBlob(text: bool, lengths: Lengths)
    | SArray(item: SType, count: nat)
    | SList(set_: bool, item: SType, lengths: Lengths)
    | SMap(key: SType, value: SType, lengths: Lengths)
    | SNamed(id: nat)

  datatype SField = SField(ty: SType, optional: bool)

  datatype SVariant = SUnit | SData(ty: SType) | SInline(fields: seq<SField>)

  datatype Decl =
    | EnumDecl(repr: nat, values: seq<nat>)
    | StructDecl(fields: seq<SField>)
    | MessageDecl(fields: seq<SField>)
    | HubDecl(key: SType, fields: seq<SField>)
    | UnionDecl(variants: seq<SVariant>)
    | TypeDecl(target: SType)
  {
    predicate HasFields() {
      StructDecl? || MessageDecl? || HubDecl?
    }

    /** A hub kind or a message, which no type may name. */
    predicate Unnameable() {
      HubDecl? || MessageDecl?
    }
  }

  type Schema = seq<Decl>

  // ----- what resolving names and lowering types check

  predicate TypeOk(s: Schema, ty: SType) {
    match ty
    case SScalar(scalar) => ScalarWf(scalar) && !scalar.Enum?
    case SBlob(_, lengths) => lengths.Wf()
    case SArray(item, _) => TypeOk(s, item)
    case SList(_, item, lengths) => TypeOk(s, item) && lengths.Wf()
    case SMap(key, value, lengths) => TypeOk(s, key) && TypeOk(s, value) && lengths.Wf()
    case SNamed(id) => id < |s| && !s[id].Unnameable()
  }

  predicate FieldsOk(s: Schema, fields: seq<SField>) {
    forall i :: 0 <= i < |fields| ==> TypeOk(s, fields[i].ty)
  }

  predicate VariantOk(s: Schema, variant: SVariant) {
    match variant
    case SUnit => true
    case SData(ty) => TypeOk(s, ty)
    case SInline(fields) => FieldsOk(s, fields)
  }

  /** What a `type` may stand for: a scalar, an enum, or another `type`. */
  predicate TargetOk(s: Schema, target: SType) {
    TypeOk(s, target) && (target.SScalar? || (target.SNamed? && (s[target.id].EnumDecl? || s[target.id].TypeDecl?)))
  }

  predicate DeclOk(s: Schema, d: Decl) {
    match d
    case EnumDecl(repr, values) => ScalarWf(Enum(repr, values))
    case StructDecl(fields) => FieldsOk(s, fields)
    case MessageDecl(fields) => FieldsOk(s, fields)
    case HubDecl(key, fields) => TypeOk(s, key) && FieldsOk(s, fields)
    case UnionDecl(variants) =>
      1 <= |variants| <= MAX_VARIANTS && forall i :: 0 <= i < |variants| ==> VariantOk(s, variants[i])
    case TypeDecl(target) => TargetOk(s, target)
  }

  predicate Lowered(s: Schema) {
    forall id :: 0 <= id < |s| ==> DeclOk(s, s[id])
  }

  // ----- references

  /** `refs`: every name in a type, in the order written. */
  function Refs(ty: SType): seq<nat> {
    match ty
    case SNamed(id) => [id]
    case SArray(item, _) => Refs(item)
    case SList(_, item, _) => Refs(item)
    case SMap(key, value, _) => Refs(key) + Refs(value)
    case _ => []
  }

  function FieldRefs(fields: seq<SField>): seq<nat> {
    if fields == [] then [] else FieldRefs(fields[..|fields| - 1]) + Refs(fields[|fields| - 1].ty)
  }

  function OneVariantRefs(variant: SVariant): seq<nat> {
    match variant
    case SUnit => []
    case SData(ty) => Refs(ty)
    case SInline(fields) => FieldRefs(fields)
  }

  function VariantRefs(variants: seq<SVariant>): seq<nat> {
    if variants == [] then []
    else
      var last := variants[|variants| - 1];
      VariantRefs(variants[..|variants| - 1]) + OneVariantRefs(last)
  }

  /** What `visit` follows from a declaration: everything but the key of a hub kind. */
  function DeclRefs(d: Decl): seq<nat> {
    match d
    case EnumDecl(_, _) => []
    case StructDecl(fields) => FieldRefs(fields)
    case MessageDecl(fields) => FieldRefs(fields)
    case HubDecl(_, fields) => FieldRefs(fields)
    case UnionDecl(variants) => VariantRefs(variants)
    case TypeDecl(target) => Refs(target)
  }

  // ----- what a declaration holds

  /** `part` is `ty` or somewhere inside it. */
  predicate Within(part: SType, ty: SType) {
    || part == ty
    || match ty
       case SArray(item, _) => Within(part, item)
       case SList(_, item, _) => Within(part, item)
       case SMap(key, value, _) => Within(part, key) || Within(part, value)
       case _ => false
  }

  predicate FieldsHold(fields: seq<SField>, part: SType) {
    exists i :: 0 <= i < |fields| && Within(part, fields[i].ty)
  }

  predicate VariantHolds(variant: SVariant, part: SType) {
    match variant
    case SUnit => false
    case SData(ty) => Within(part, ty)
    case SInline(fields) => FieldsHold(fields, part)
  }

  /** A value of the declaration is made of `part`, among others. */
  predicate Holds(d: Decl, part: SType) {
    match d
    case EnumDecl(_, _) => false
    case TypeDecl(target) => Within(part, target)
    case UnionDecl(variants) => exists i :: 0 <= i < |variants| && VariantHolds(variants[i], part)
    case _ => FieldsHold(d.fields, part)
  }

  lemma {:induction false} TypeRefsExactly(ty: SType, id: nat)
    ensures id in Refs(ty) <==> Within(SNamed(id), ty)
  {
    match ty {
      case SArray(item, _) => TypeRefsExactly(item, id);
      case SList(_, item, _) => TypeRefsExactly(item, id);
      case SMap(key, value, _) => TypeRefsExactly(key, id); TypeRefsExactly(value, id);
      case _ =>
    }
  }

  lemma {:induction false} FieldRefsExactly(fields: seq<SField>, id: nat)
    ensures id in FieldRefs(fields) <==> FieldsHold(fields, SNamed(id))
  {
    hide Within;
    if fields != [] {
      var front, last := fields[..|fields| - 1], fields[|fields| - 1];
      FieldRefsExactly(front, id);
      TypeRefsExactly(last.ty, id);
      if FieldsHold(front, SNamed(id)) {
        var i :| 0 <= i < |front| && Within(SNamed(id), front[i].ty);
        assert Within(SNamed(id), fields[i].ty);
      }
      if FieldsHold(fields, SNamed(id)) {
        var i :| 0 <= i < |fields| && Within(SNamed(id), fields[i].ty);
        assert i < |front| ==> Within(SNamed(id), front[i].ty);
      }
    }
  }

  lemma {:induction false} OneVariantRefsExactly(variant: SVariant, id: nat)
    ensures id in OneVariantRefs(variant) <==> VariantHolds(variant, SNamed(id))
  {
    match variant {
      case SUnit =>
      case SData(ty) => TypeRefsExactly(ty, id);
      case SInline(fields) => FieldRefsExactly(fields, id);
    }
  }

  lemma {:induction false} VariantRefsExactly(variants: seq<SVariant>, id: nat)
    ensures id in VariantRefs(variants) <==> exists i :: 0 <= i < |variants| && VariantHolds(variants[i], SNamed(id))
  {
    hide VariantHolds, OneVariantRefs;
    if variants != [] {
      var front, last := variants[..|variants| - 1], variants[|variants| - 1];
      VariantRefsExactly(front, id);
      OneVariantRefsExactly(last, id);
      forall i | 0 <= i < |front| && VariantHolds(front[i], SNamed(id)) ensures VariantHolds(variants[i], SNamed(id)) {
      }
      forall i | 0 <= i < |variants| && VariantHolds(variants[i], SNamed(id))
        ensures (i < |front| && VariantHolds(front[i], SNamed(id))) || VariantHolds(last, SNamed(id))
      {
      }
    }
  }

  /** What is followed from a declaration is exactly every name its values are made of. */
  lemma {:induction false} RefsExactly(d: Decl, id: nat)
    ensures id in DeclRefs(d) <==> Holds(d, SNamed(id))
  {
    match d {
      case EnumDecl(_, _) =>
      case TypeDecl(target) => TypeRefsExactly(target, id);
      case UnionDecl(variants) => VariantRefsExactly(variants, id);
      case _ => FieldRefsExactly(d.fields, id);
    }
  }

  /** Each reference leads to a declaration that types may name. */
  predicate RefsOk(s: Schema, refs: seq<nat>) {
    forall k :: 0 <= k < |refs| ==> refs[k] < |s| && !s[refs[k]].Unnameable()
  }

  lemma {:induction false} TypeRefsOk(s: Schema, ty: SType)
    requires TypeOk(s, ty)
    ensures RefsOk(s, Refs(ty))
  {
    match ty {
      case SArray(item, _) => TypeRefsOk(s, item);
      case SList(_, item, _) => TypeRefsOk(s, item);
      case SMap(key, value, _) => TypeRefsOk(s, key); TypeRefsOk(s, value);
      case _ =>
    }
  }

  lemma {:induction false} FieldRefsOk(s: Schema, fields: seq<SField>)
    requires FieldsOk(s, fields)
    ensures RefsOk(s, FieldRefs(fields))
  {
    if fields != [] {
      FieldRefsOk(s, fields[..|fields| - 1]);
      TypeRefsOk(s, fields[|fields| - 1].ty);
    }
  }

  lemma {:induction false} VariantRefsOk(s: Schema, variants: seq<SVariant>)
    requires forall i :: 0 <= i < |variants| ==> VariantOk(s, variants[i])
    ensures RefsOk(s, VariantRefs(variants))
  {
    if variants != [] {
      var n := |variants| - 1;
      VariantRefsOk(s, variants[..n]);
      match variants[n] {
        case SUnit =>
        case SData(ty) => TypeRefsOk(s, ty);
        case SInline(fields) => FieldRefsOk(s, fields);
      }
    }
  }

  lemma {:induction false} DeclRefsOk(s: Schema, id: nat)
    requires Lowered(s) && id < |s|
    ensures RefsOk(s, DeclRefs(s[id]))
  {
    assert DeclOk(s, s[id]);
    match s[id] {
      case EnumDecl(_, _) =>
      case StructDecl(fields) => FieldRefsOk(s, fields);
      case MessageDecl(fields) => FieldRefsOk(s, fields);
      case HubDecl(_, fields) => FieldRefsOk(s, fields);
      case UnionDecl(variants) => VariantRefsOk(s, variants);
      case TypeDecl(ty) => TypeRefsOk(s, ty);
    }
  }

  // ----- recursive types

  /** A walk along references, from each declaration to one it refers to. */
  predicate IsWalk(s: Schema, walk: seq<nat>) {
    forall k :: 0 <= k < |walk| - 1 ==> walk[k] < |s| && walk[k + 1] in DeclRefs(s[walk[k]])
  }

  /** A walk that comes back to where it starts. */
  predicate IsCycle(s: Schema, walk: seq<nat>) {
    |walk| >= 2 && walk[0] == walk[|walk| - 1] && IsWalk(s, walk)
  }

  ghost predicate Recursive(s: Schema) {
    exists walk :: IsCycle(s, walk)
  }

  /** Each reference leads to a number below `n`. */
  ghost predicate RefsBelow(rank: seq<nat>, n: nat, refs: seq<nat>) {
    forall k :: 0 <= k < |refs| ==> refs[k] < |rank| && rank[refs[k]] < n
  }

  /** A numbering in which every reference leads to a lower number. */
  ghost predicate Ranked(s: Schema, rank: seq<nat>) {
    && |rank| == |s|
    && forall id :: 0 <= id < |s| ==> rank[id] < |s| && RefsBelow(rank, rank[id], DeclRefs(s[id]))
  }

  lemma {:induction false} WalkDescends(s: Schema, rank: seq<nat>, walk: seq<nat>)
    requires Ranked(s, rank) && IsWalk(s, walk) && |walk| >= 2
    ensures walk[0] < |s| && walk[|walk| - 1] < |s| && rank[walk[|walk| - 1]] < rank[walk[0]]
  {
    var n := |walk| - 1;
    var from, to := walk[n - 1], walk[n];
    assert from < |s| && to in DeclRefs(s[from]);
    assert RefsBelow(rank, rank[from], DeclRefs(s[from]));
    if n > 1 {
      WalkDescends(s, rank, walk[..n]);
    }
  }

  /** A numbered schema has no recursive type. */
  lemma {:induction false} RankedAcyclic(s: Schema, rank: seq<nat>)
    requires Ranked(s, rank)
    ensures !Recursive(s)
  {
    forall walk | IsCycle(s, walk) ensures false {
      WalkDescends(s, rank, walk);
    }
  }

  // ----- what a type stands for

  /** One more than the highest number `ty` refers to, 0 when it refers to none. */
  ghost function Level(rank: seq<nat>, ty: SType): nat {
    match ty
    case SNamed(id) => if id < |rank| then rank[id] + 1 else 0
    case SArray(item, _) => Level(rank, item)
    case SList(_, item, _) => Level(rank, item)
    case SMap(key, value, _) => if Level(rank, key) > Level(rank, value) then Level(rank, key) else Level(rank, value)
    case _ => 0
  }

  lemma {:induction false} LevelBound(rank: seq<nat>, ty: SType, n: nat)
    requires RefsBelow(rank, n, Refs(ty))
    ensures Level(rank, ty) <= n
  {
    match ty {
      case SArray(item, _) => LevelBound(rank, item, n);
      case SList(_, item, _) => LevelBound(rank, item, n);
      case SMap(key, value, _) =>
        RefsBelowParts(rank, n, Refs(key), Refs(value));
        LevelBound(rank, key, n);
        LevelBound(rank, value, n);
      case SNamed(id) => assert Refs(ty)[0] == id;
      case _ =>
    }
  }

  lemma {:induction false} RefsBelowParts(rank: seq<nat>, n: nat, a: seq<nat>, b: seq<nat>)
    requires RefsBelow(rank, n, a + b)
    ensures RefsBelow(rank, n, a) && RefsBelow(rank, n, b)
  {
    forall k | 0 <= k < |a| ensures a[k] < |rank| && rank[a[k]] < n {
      assert (a + b)[k] == a[k];
    }
    forall k | 0 <= k < |b| ensures b[k] < |rank| && rank[b[k]] < n {
      assert (a + b)[|a| + k] == b[k];
    }
  }

  lemma {:induction false} FieldsBelow(rank: seq<nat>, n: nat, fields: seq<SField>, i: nat)
    requires RefsBelow(rank, n, FieldRefs(fields)) && i < |fields|
    ensures RefsBelow(rank, n, Refs(fields[i].ty))
  {
    var front := fields[..|fields| - 1];
    RefsBelowParts(rank, n, FieldRefs(front), Refs(fields[|fields| - 1].ty));
    if i < |front| {
      FieldsBelow(rank, n, front, i);
    }
  }

  lemma {:induction false} VariantsBelow(rank: seq<nat>, n: nat, variants: seq<SVariant>, i: nat)
    requires RefsBelow(rank, n, VariantRefs(variants)) && i < |variants|
    ensures RefsBelow(rank, n, OneVariantRefs(variants[i]))
  {
    hide RefsBelow, OneVariantRefs;
    var front := variants[..|variants| - 1];
    RefsBelowParts(rank, n, VariantRefs(front), OneVariantRefs(variants[|variants| - 1]));
    if i < |front| {
      VariantsBelow(rank, n, front, i);
    }
  }

  /** The types a declaration is made of are below it. */
  lemma {:induction false} FieldLevel(s: Schema, rank: seq<nat>, id: nat, i: nat)
    requires Lowered(s) && Ranked(s, rank) && id < |s| && s[id].HasFields() && i < |s[id].fields|
    ensures TypeOk(s, s[id].fields[i].ty) && Level(rank, s[id].fields[i].ty) <= rank[id]
  {
    assert DeclOk(s, s[id]) && RefsBelow(rank, rank[id], DeclRefs(s[id]));
    FieldsBelow(rank, rank[id], s[id].fields, i);
    LevelBound(rank, s[id].fields[i].ty, rank[id]);
  }

  lemma {:induction false} VariantLevel(s: Schema, rank: seq<nat>, id: nat, i: nat)
    requires Lowered(s) && Ranked(s, rank) && id < |s| && s[id].UnionDecl? && i < |s[id].variants| && s[id].variants[i].SData?
    ensures TypeOk(s, s[id].variants[i].ty) && Level(rank, s[id].variants[i].ty) <= rank[id]
  {
    var variants := s[id].variants;
    assert DeclOk(s, s[id]) && VariantOk(s, variants[i]) && RefsBelow(rank, rank[id], DeclRefs(s[id]));
    VariantsBelow(rank, rank[id], variants, i);
    LevelBound(rank, variants[i].ty, rank[id]);
  }

  lemma {:induction false} InlineLevel(s: Schema, rank: seq<nat>, id: nat, i: nat, j: nat)
    requires Lowered(s) && Ranked(s, rank) && id < |s| && s[id].UnionDecl? && i < |s[id].variants|
    requires s[id].variants[i].SInline? && j < |s[id].variants[i].fields|
    ensures TypeOk(s, s[id].variants[i].fields[j].ty) && Level(rank, s[id].variants[i].fields[j].ty) <= rank[id]
  {
    var variants := s[id].variants;
    assert DeclOk(s, s[id]) && VariantOk(s, variants[i]) && RefsBelow(rank, rank[id], DeclRefs(s[id]));
    VariantsBelow(rank, rank[id], variants, i);
    FieldsBelow(rank, rank[id], variants[i].fields, j);
    LevelBound(rank, variants[i].fields[j].ty, rank[id]);
  }

  lemma {:induction false} TargetLevel(s: Schema, rank: seq<nat>, id: nat)
    requires Lowered(s) && Ranked(s, rank) && id < |s| && s[id].TypeDecl?
    ensures TargetOk(s, s[id].target) && Level(rank, s[id].target) <= rank[id]
  {
    assert DeclOk(s, s[id]) && RefsBelow(rank, rank[id], DeclRefs(s[id]));
    LevelBound(rank, s[id].target, rank[id]);
  }

  /** `ty` with every name replaced by what it stands for. */
  ghost function Unfold(s: Schema, rank: seq<nat>, ty: SType): Type
    requires Lowered(s) && Ranked(s, rank) && TypeOk(s, ty)
    decreases Level(rank, ty), 0, ty
  {
    match ty
    case SScalar(scalar) => Atomic(scalar)
    case SBlob(text, lengths) => Blob(text, lengths)
    case SArray(item, count) => Array(Unfold(s, rank, item), count)
    case SList(set_, item, lengths) => Collection(if set_ then SetKind else VecKind, Unfold(s, rank, item), lengths)
    case SMap(key, value, lengths) => Collection(MapKind, Pair(Unfold(s, rank, key), Unfold(s, rank, value)), lengths)
    case SNamed(id) => UnfoldDecl(s, rank, id)
  }

  /** The type a declaration is; a message or a hub kind is the object of its fields. */
  ghost function UnfoldDecl(s: Schema, rank: seq<nat>, id: nat): Type
    requires Lowered(s) && Ranked(s, rank) && id < |s|
    decreases rank[id], 2
  {
    match s[id]
    case EnumDecl(repr, values) => Atomic(Enum(repr, values))
    case TypeDecl(target) => TargetLevel(s, rank, id); Newtype(Unfold(s, rank, target))
    case UnionDecl(variants) => Union(UnfoldVariants(s, rank, id))
    case _ => Struct(UnfoldFields(s, rank, id))
  }

  ghost function UnfoldFields(s: Schema, rank: seq<nat>, id: nat): (fields: seq<Field>)
    requires Lowered(s) && Ranked(s, rank) && id < |s| && s[id].HasFields()
    ensures |fields| == |s[id].fields|
    decreases rank[id], 0
  {
    seq(|s[id].fields|, i requires 0 <= i < |s[id].fields| =>
      (FieldLevel(s, rank, id, i); Field(Unfold(s, rank, s[id].fields[i].ty), s[id].fields[i].optional)))
  }

  ghost function UnfoldVariants(s: Schema, rank: seq<nat>, id: nat): (variants: seq<Variant>)
    requires Lowered(s) && Ranked(s, rank) && id < |s| && s[id].UnionDecl?
    ensures |variants| == |s[id].variants|
    decreases rank[id], 1
  {
    seq(|s[id].variants|, i requires 0 <= i < |s[id].variants| =>
      (match s[id].variants[i]
       case SUnit => Unit
       case SData(ty) => VariantLevel(s, rank, id, i); Data(Unfold(s, rank, ty))
       case SInline(fields) => Data(Struct(UnfoldInline(s, rank, id, i)))))
  }

  ghost function UnfoldInline(s: Schema, rank: seq<nat>, id: nat, i: nat): (fields: seq<Field>)
    requires Lowered(s) && Ranked(s, rank) && id < |s| && s[id].UnionDecl? && i < |s[id].variants| && s[id].variants[i].SInline?
    ensures |fields| == |s[id].variants[i].fields|
    decreases rank[id], 0
  {
    var fields := s[id].variants[i].fields;
    seq(|fields|, j requires 0 <= j < |fields| =>
      (InlineLevel(s, rank, id, i, j); Field(Unfold(s, rank, fields[j].ty), fields[j].optional)))
  }
}
