/**
 The last phases of lowering, in order: what must be fixed-size, recursive types, then layouts.
 Each runs only once the ones before it report nothing, and together they accept exactly the
 schemas whose every type the codec is proved for.
 */
module Lowering {
  import opened Wrappers
  import opened Layouts
  import opened Types
  import opened Schemas
  import opened Cycles
  import opened FixedSizes
  import opened Builders

  // ----- what must be fixed-size

  /** The array items, set items, and map keys in `ty`, in the order they are met. */
  function Checks(ty: SType): seq<SType> {
    match ty
    case SArray(item, _) => Checks(item) + [item]
    case SList(set_, item, _) => Checks(item) + if set_ then [item] else []
    case SMap(key, value, _) => Checks(key) + [key] + Checks(value)
    case _ => []
  }

  function FieldChecks(fields: seq<SField>): seq<SType> {
    if fields == [] then [] else FieldChecks(fields[..|fields| - 1]) + Checks(fields[|fields| - 1].ty)
  }

  function VariantChecks(variant: SVariant): seq<SType> {
    match variant
    case SUnit => []
    case SData(ty) => Checks(ty)
    case SInline(fields) => FieldChecks(fields)
  }

  function VariantsChecks(variants: seq<SVariant>): seq<SType> {
    if variants == [] then [] else VariantsChecks(variants[..|variants| - 1]) + VariantChecks(variants[|variants| - 1])
  }

  function DeclChecks(d: Decl): seq<SType> {
    match d
    case EnumDecl(_, _) => []
    case StructDecl(fields) => FieldChecks(fields)
    case MessageDecl(fields) => FieldChecks(fields)
    case HubDecl(key, fields) => Checks(key) + [key] + FieldChecks(fields)
    case UnionDecl(variants) => VariantsChecks(variants)
    case TypeDecl(target) => Checks(target)
  }

  /** `holder` is a collection whose items or keys are `part`, which must be fixed-size. */
  predicate Demands(holder: SType, part: SType) {
    || (holder.SArray? && holder.item == part)
    || (holder.SList? && holder.set_ && holder.item == part)
    || (holder.SMap? && holder.key == part)
  }

  lemma {:induction false} ChecksExactly(ty: SType, part: SType)
    ensures part in Checks(ty) <==> exists holder :: Within(holder, ty) && Demands(holder, part)
  {
    match ty {
      case SArray(item, _) =>
        ChecksExactly(item, part);
        assert item == part ==> Within(ty, ty) && Demands(ty, part);
      case SList(set_, item, _) =>
        ChecksExactly(item, part);
        assert set_ && item == part ==> Within(ty, ty) && Demands(ty, part);
      case SMap(key, value, _) =>
        ChecksExactly(key, part);
        ChecksExactly(value, part);
        assert key == part ==> Within(ty, ty) && Demands(ty, part);
      case _ =>
    }
  }

  lemma {:induction false} FieldChecksExactly(fields: seq<SField>, part: SType)
    ensures part in FieldChecks(fields) <==> exists i :: 0 <= i < |fields| && part in Checks(fields[i].ty)
  {
    hide Checks;
    if fields != [] {
      var front := fields[..|fields| - 1];
      FieldChecksExactly(front, part);
      assert forall i :: 0 <= i < |front| ==> front[i] == fields[i];
    }
  }

  lemma {:induction false} VariantsChecksExactly(variants: seq<SVariant>, part: SType)
    ensures part in VariantsChecks(variants) <==> exists i :: 0 <= i < |variants| && part in VariantChecks(variants[i])
  {
    hide VariantChecks;
    if variants != [] {
      var front := variants[..|variants| - 1];
      VariantsChecksExactly(front, part);
      assert forall i :: 0 <= i < |front| ==> front[i] == variants[i];
    }
  }

  /** Some part of the fields demands `part`. */
  lemma {:induction false} FieldsDemand(fields: seq<SField>, part: SType)
    ensures part in FieldChecks(fields) <==> exists holder :: FieldsHold(fields, holder) && Demands(holder, part)
  {
    hide Checks, Within, Demands, FieldChecks;
    FieldChecksExactly(fields, part);
    forall i | 0 <= i < |fields| {
      ChecksExactly(fields[i].ty, part);
    }
    if holder :| FieldsHold(fields, holder) && Demands(holder, part) {
      var i :| 0 <= i < |fields| && Within(holder, fields[i].ty);
    }
    if i :| 0 <= i < |fields| && part in Checks(fields[i].ty) {
      var holder :| Within(holder, fields[i].ty) && Demands(holder, part);
      assert FieldsHold(fields, holder);
    }
  }

  lemma {:induction false} VariantDemands(variant: SVariant, part: SType)
    ensures part in VariantChecks(variant) <==> exists holder :: VariantHolds(variant, holder) && Demands(holder, part)
  {
    hide Checks, Within, Demands, FieldChecks, FieldsHold;
    match variant {
      case SUnit =>
      case SData(ty) =>
        ChecksExactly(ty, part);
        assert forall holder :: Within(holder, ty) <==> VariantHolds(variant, holder);
      case SInline(fields) =>
        FieldsDemand(fields, part);
        assert forall holder :: FieldsHold(fields, holder) <==> VariantHolds(variant, holder);
    }
  }

  lemma {:induction false} VariantsDemand(variants: seq<SVariant>, part: SType)
    ensures part in VariantsChecks(variants) <==>
            exists holder :: Holds(UnionDecl(variants), holder) && Demands(holder, part)
  {
    hide VariantChecks, VariantsChecks, VariantHolds, Demands;
    VariantsChecksExactly(variants, part);
    forall i | 0 <= i < |variants| {
      VariantDemands(variants[i], part);
    }
    if holder :| Holds(UnionDecl(variants), holder) && Demands(holder, part) {
      var i :| 0 <= i < |variants| && VariantHolds(variants[i], holder);
    }
    if i :| 0 <= i < |variants| && part in VariantChecks(variants[i]) {
      var holder :| VariantHolds(variants[i], holder) && Demands(holder, part);
      assert Holds(UnionDecl(variants), holder);
    }
  }

  /** What must be fixed-size is every array item, set item, and map key in the declaration, and a hub kind's key. */
  lemma {:induction false} DeclChecksExactly(d: Decl, part: SType)
    ensures part in DeclChecks(d) <==>
            || (d.HubDecl? && (part == d.key || exists holder :: Within(holder, d.key) && Demands(holder, part)))
            || exists holder :: Holds(d, holder) && Demands(holder, part)
  {
    hide Checks, Within, Demands, FieldChecks, VariantsChecks, FieldsHold;
    match d {
      case EnumDecl(_, _) =>
      case TypeDecl(target) =>
        ChecksExactly(target, part);
        assert forall holder :: Within(holder, target) <==> Holds(d, holder);
      case UnionDecl(variants) => VariantsDemand(variants, part);
      case HubDecl(key, fields) =>
        ChecksExactly(key, part);
        FieldsDemand(fields, part);
        assert forall holder :: FieldsHold(fields, holder) <==> Holds(d, holder);
      case _ =>
        FieldsDemand(d.fields, part);
        assert forall holder :: FieldsHold(d.fields, holder) <==> Holds(d, holder);
    }
  }

  predicate AllOk(s: Schema, tys: seq<SType>) {
    forall k :: 0 <= k < |tys| ==> TypeOk(s, tys[k])
  }

  ghost predicate AllFixed(s: Schema, tys: seq<SType>)
    requires Closed(s) && AllOk(s, tys)
  {
    forall k :: 0 <= k < |tys| ==> (TypeRefsOk(s, tys[k]); FixedIn(s, tys[k], []))
  }

  lemma {:induction false} ChecksOk(s: Schema, ty: SType)
    requires TypeOk(s, ty)
    ensures AllOk(s, Checks(ty))
  {
    match ty {
      case SArray(item, _) => ChecksOk(s, item);
      case SList(_, item, _) => ChecksOk(s, item);
      case SMap(key, value, _) => ChecksOk(s, key); ChecksOk(s, value);
      case _ =>
    }
  }

  lemma {:induction false} FieldChecksOk(s: Schema, fields: seq<SField>)
    requires FieldsOk(s, fields)
    ensures AllOk(s, FieldChecks(fields))
  {
    if fields != [] {
      FieldChecksOk(s, fields[..|fields| - 1]);
      ChecksOk(s, fields[|fields| - 1].ty);
    }
  }

  lemma {:induction false} VariantsChecksOk(s: Schema, variants: seq<SVariant>)
    requires forall i :: 0 <= i < |variants| ==> VariantOk(s, variants[i])
    ensures AllOk(s, VariantsChecks(variants))
  {
    if variants != [] {
      var n := |variants| - 1;
      VariantsChecksOk(s, variants[..n]);
      match variants[n] {
        case SUnit =>
        case SData(ty) => ChecksOk(s, ty);
        case SInline(fields) => FieldChecksOk(s, fields);
      }
    }
  }

  lemma {:induction false} DeclChecksOk(s: Schema, id: nat)
    requires Lowered(s) && id < |s|
    ensures AllOk(s, DeclChecks(s[id]))
  {
    assert DeclOk(s, s[id]);
    match s[id] {
      case EnumDecl(_, _) =>
      case StructDecl(fields) => FieldChecksOk(s, fields);
      case MessageDecl(fields) => FieldChecksOk(s, fields);
      case HubDecl(key, fields) => ChecksOk(s, key); FieldChecksOk(s, fields);
      case UnionDecl(variants) => VariantsChecksOk(s, variants);
      case TypeDecl(target) => ChecksOk(s, target);
    }
  }

  /** What must be fixed-size in declaration `id` is. */
  ghost predicate DeclFixed(s: Schema, id: nat)
    requires Lowered(s) && id < |s|
  {
    LoweredClosed(s);
    DeclChecksOk(s, id);
    AllFixed(s, DeclChecks(s[id]))
  }

  // ----- without errors, the codec's types

  lemma {:induction false} FixedParts(s: Schema, a: seq<SType>, b: seq<SType>)
    requires Closed(s) && AllOk(s, a) && AllOk(s, b) && AllOk(s, a + b) && AllFixed(s, a + b)
    ensures AllFixed(s, a) && AllFixed(s, b)
  {
    hide FixedIn;
    forall k | 0 <= k < |a| ensures (TypeRefsOk(s, a[k]); FixedIn(s, a[k], [])) {
      TypeRefsOk(s, a[k]);
      assert (a + b)[k] == a[k];
    }
    forall k | 0 <= k < |b| ensures (TypeRefsOk(s, b[k]); FixedIn(s, b[k], [])) {
      TypeRefsOk(s, b[k]);
      assert (a + b)[|a| + k] == b[k];
    }
  }

  /** A type required to be fixed-size is, once unfolded. */
  lemma {:induction false} OneFixed(s: Schema, rank: seq<nat>, ty: SType)
    requires Lowered(s) && Ranked(s, rank) && TypeOk(s, ty) && Closed(s) && AllOk(s, [ty]) && AllFixed(s, [ty])
    ensures Wf(Unfold(s, rank, ty)) && SizeOf(Unfold(s, rank, ty)).Fixed?
  {
    TypeRefsOk(s, ty);
    assert [ty][0] == ty;
    FixedIsSize(s, rank, ty, []);
  }

  /** An array that fits holds items that fit. */
  lemma {:induction false} ItemFits(size: nat, count: nat)
    requires ArraySize(Fixed(size), count).bytes <= MAX_SIZE && count > 0
    ensures size <= MAX_SIZE
  {
  }

  /** Every declaration reports nothing, and holds fixed-size what must be. */
  ghost predicate AllFine(s: Schema, rank: seq<nat>) {
    && Lowered(s) && Ranked(s, rank)
    && forall id :: 0 <= id < |s| ==> DeclFine(s, rank, id) && DeclFixed(s, id)
  }

  lemma {:induction false} TypeGood(s: Schema, rank: seq<nat>, ty: SType)
    requires AllFine(s, rank) && TypeOk(s, ty) && Oversized(s, rank, ty).None?
    requires Closed(s) && AllOk(s, Checks(ty)) && AllFixed(s, Checks(ty))
    ensures Wf(Unfold(s, rank, ty)) && Good(Unfold(s, rank, ty))
    decreases Level(rank, ty), 0, ty
  {
    UnfoldWf(s, rank, ty);
    match ty {
      case SScalar(_) =>
      case SBlob(_, _) =>
      case SArray(item, count) => ArrayGood(s, rank, item, count);
      case SList(set_, item, _) =>
        ChecksOk(s, item);
        FixedParts(s, Checks(item), if set_ then [item] else []);
        TypeGood(s, rank, item);
        if set_ {
          OneFixed(s, rank, item);
        }
      case SMap(key, value, _) =>
        ChecksOk(s, key);
        ChecksOk(s, value);
        FixedParts(s, Checks(key) + [key], Checks(value));
        FixedParts(s, Checks(key), [key]);
        TypeGood(s, rank, key);
        TypeGood(s, rank, value);
        OneFixed(s, rank, key);
      case SNamed(id) => DeclGood(s, rank, id);
    }
  }

  lemma {:induction false} ArrayGood(s: Schema, rank: seq<nat>, item: SType, count: nat)
    requires AllFine(s, rank) && TypeOk(s, SArray(item, count)) && Oversized(s, rank, SArray(item, count)).None?
    requires Closed(s) && AllOk(s, Checks(item) + [item]) && AllFixed(s, Checks(item) + [item])
    ensures Wf(Unfold(s, rank, SArray(item, count))) && Good(Unfold(s, rank, SArray(item, count)))
    decreases Level(rank, item), 0, SArray(item, count), 0
  {
    UnfoldWf(s, rank, SArray(item, count));
    ChecksOk(s, item);
    FixedParts(s, Checks(item), [item]);
    OneFixed(s, rank, item);
    if count > 0 {
      ItemFits(SizeOf(Unfold(s, rank, item)).bytes, count);
      TypeGood(s, rank, item);
    }
  }

  lemma {:induction false} FieldGood(s: Schema, rank: seq<nat>, fields: seq<SField>, i: nat)
    requires AllFine(s, rank) && FieldsOk(s, fields) && i < |fields| && Oversized(s, rank, fields[i].ty).None?
    requires Closed(s) && AllOk(s, FieldChecks(fields)) && AllFixed(s, FieldChecks(fields))
    ensures Wf(Unfold(s, rank, fields[i].ty)) && Good(Unfold(s, rank, fields[i].ty))
    decreases Level(rank, fields[i].ty), 1, |fields|
  {
    hide AllFixed, AllFine, Oversized, Good, Wf, Unfold;
    var n := |fields| - 1;
    FieldChecksOk(s, fields[..n]);
    ChecksOk(s, fields[n].ty);
    FixedParts(s, FieldChecks(fields[..n]), Checks(fields[n].ty));
    FineRanked(s, rank);
    if i < n {
      FieldGood(s, rank, fields[..n], i);
    } else {
      TypeGood(s, rank, fields[n].ty);
    }
  }

  lemma {:induction false} FineRanked(s: Schema, rank: seq<nat>)
    requires AllFine(s, rank)
    ensures Lowered(s) && Ranked(s, rank)
  {
  }

  lemma {:induction false} VariantFixed(s: Schema, variants: seq<SVariant>, i: nat)
    requires Closed(s) && AllOk(s, VariantsChecks(variants)) && AllFixed(s, VariantsChecks(variants)) && i < |variants|
    requires forall j :: 0 <= j < |variants| ==> VariantOk(s, variants[j])
    ensures AllOk(s, VariantChecks(variants[i])) && AllFixed(s, VariantChecks(variants[i]))
  {
    hide AllFixed;
    var n := |variants| - 1;
    VariantsChecksOk(s, variants[..n]);
    match variants[n] {
      case SUnit =>
      case SData(ty) => ChecksOk(s, ty);
      case SInline(fields) => FieldChecksOk(s, fields);
    }
    FixedParts(s, VariantsChecks(variants[..n]), VariantChecks(variants[n]));
    if i < n {
      VariantFixed(s, variants[..n], i);
    }
  }

  /** A declaration that reports nothing is a type the codec takes. */
  lemma {:induction false} DeclGood(s: Schema, rank: seq<nat>, id: nat)
    requires AllFine(s, rank) && id < |s|
    ensures Wf(UnfoldDecl(s, rank, id)) && Good(UnfoldDecl(s, rank, id))
    decreases rank[id], 3
  {
    UnfoldDeclWf(s, rank, id);
    assert DeclOk(s, s[id]) && DeclFine(s, rank, id) && DeclFixed(s, id);
    LoweredClosed(s);
    DeclChecksOk(s, id);
    if s[id].HasFields() {
      ObjectGood(s, rank, id);
    } else if s[id].UnionDecl? {
      var vs := UnfoldVariants(s, rank, id);
      forall i | 0 <= i < |vs| && vs[i].Data? ensures Good(vs[i].ty) {
        VariantGood(s, rank, id, i);
      }
    } else if s[id].TypeDecl? {
      TargetLevel(s, rank, id);
      TargetFine(s, rank, id);
      TypeGood(s, rank, s[id].target);
    }
  }

  /** What a `type` stands for is never too large. */
  lemma {:induction false} TargetFine(s: Schema, rank: seq<nat>, id: nat)
    requires Lowered(s) && Ranked(s, rank) && id < |s| && s[id].TypeDecl?
    ensures TypeOk(s, s[id].target) && Oversized(s, rank, s[id].target).None?
  {
    assert DeclOk(s, s[id]);
  }

  lemma {:induction false} ObjectGood(s: Schema, rank: seq<nat>, id: nat)
    requires AllFine(s, rank) && id < |s| && s[id].HasFields()
    ensures Wf(UnfoldDecl(s, rank, id)) && Good(UnfoldDecl(s, rank, id))
    decreases rank[id], 1
  {
    UnfoldDeclWf(s, rank, id);
    UnfoldFieldsWf(s, rank, id);
    ObjectFixed(s, rank, id);
    ObjectFields(s, rank, id);
    var fs := UnfoldFields(s, rank, id);
    assert DeclFine(s, rank, id) && FieldsFine(s, rank, rank[id], s[id].fields, fs);
    forall i | 0 <= i < |fs| ensures Good(fs[i].ty) {
      FieldLevel(s, rank, id, i);
      FieldGood(s, rank, s[id].fields, i);
    }
  }

  lemma {:induction false} ObjectFixed(s: Schema, rank: seq<nat>, id: nat)
    requires AllFine(s, rank) && id < |s| && s[id].HasFields()
    ensures Closed(s) && FieldsOk(s, s[id].fields) && AllOk(s, FieldChecks(s[id].fields)) && AllFixed(s, FieldChecks(s[id].fields))
  {
    hide AllFixed;
    LoweredClosed(s);
    DeclChecksOk(s, id);
    assert DeclOk(s, s[id]) && DeclFixed(s, id);
    FieldChecksOk(s, s[id].fields);
    if s[id].HubDecl? {
      ChecksOk(s, s[id].key);
      FixedParts(s, Checks(s[id].key) + [s[id].key], FieldChecks(s[id].fields));
    }
  }

  lemma {:induction false} VariantGood(s: Schema, rank: seq<nat>, id: nat, i: nat)
    requires AllFine(s, rank) && id < |s| && s[id].UnionDecl? && i < |s[id].variants|
    ensures var v := UnfoldVariants(s, rank, id)[i]; v.Data? ==> Wf(v.ty) && Good(v.ty)
    decreases rank[id], 2
  {
    var variants := s[id].variants;
    assert DeclOk(s, s[id]) && DeclFine(s, rank, id) && DeclFixed(s, id) && VariantFine(s, rank, id, i);
    LoweredClosed(s);
    DeclChecksOk(s, id);
    VariantFixed(s, variants, i);
    UnfoldVariantWf(s, rank, id, i);
    match variants[i] {
      case SUnit =>
      case SData(ty) =>
        VariantLevel(s, rank, id, i);
        TypeGood(s, rank, ty);
      case SInline(fields) => InlineGood(s, rank, id, i);
    }
  }

  lemma {:induction false} InlineGood(s: Schema, rank: seq<nat>, id: nat, i: nat)
    requires AllFine(s, rank) && id < |s| && s[id].UnionDecl? && i < |s[id].variants| && s[id].variants[i].SInline?
    requires VariantFine(s, rank, id, i) && Closed(s)
    requires AllOk(s, FieldChecks(s[id].variants[i].fields)) && AllFixed(s, FieldChecks(s[id].variants[i].fields))
    ensures Wf(Struct(UnfoldInline(s, rank, id, i))) && Good(Struct(UnfoldInline(s, rank, id, i)))
    decreases rank[id], 1
  {
    hide AllFixed, AllFine, Oversized, SizeOf, DeclFine;
    FineRanked(s, rank);
    UnfoldInlineWf(s, rank, id, i);
    InlineFields(s, rank, id, i);
    var fields, fs := s[id].variants[i].fields, UnfoldInline(s, rank, id, i);
    InlineFine(s, rank, id, i);
    forall j | 0 <= j < |fs| ensures Good(fs[j].ty) {
      InlineLevel(s, rank, id, i, j);
      FieldGood(s, rank, fields, j);
    }
    StructGood(fs);
  }

  lemma {:induction false} StructGood(fs: seq<Field>)
    requires Wf(Struct(fs)) && WfFields(fs) && Head(Types.Members(fs)) <= MAX_SIZE && forall i :: 0 <= i < |fs| ==> Good(fs[i].ty)
    ensures Good(Struct(fs))
  {
  }

  lemma {:induction false} InlineFine(s: Schema, rank: seq<nat>, id: nat, i: nat)
    requires Lowered(s) && Ranked(s, rank) && id < |s| && s[id].UnionDecl? && i < |s[id].variants| && s[id].variants[i].SInline?
    requires VariantFine(s, rank, id, i)
    ensures var fields := s[id].variants[i].fields;
            FieldsOk(s, fields) && forall j :: 0 <= j < |fields| ==> Oversized(s, rank, fields[j].ty).None?
    ensures WfFields(UnfoldInline(s, rank, id, i)) && Head(Types.Members(UnfoldInline(s, rank, id, i))) <= MAX_SIZE
  {
    hide Oversized, Head;
    UnfoldInlineWf(s, rank, id, i);
    InlineFields(s, rank, id, i);
    assert VariantOk(s, s[id].variants[i]) by {
      assert DeclOk(s, s[id]);
    }
  }

  // ----- errors only for what a message cannot hold

  lemma {:induction false} ArrayNotOversized(s: Schema, rank: seq<nat>, item: SType, count: nat)
    requires Lowered(s) && Ranked(s, rank) && TypeOk(s, SArray(item, count))
    requires Wf(Unfold(s, rank, SArray(item, count))) && Good(Unfold(s, rank, SArray(item, count)))
    ensures Oversized(s, rank, SArray(item, count)).None?
  {
    hide SizeOf;
  }

  lemma {:induction false} ListParts(s: Schema, rank: seq<nat>, ty: SType)
    requires Lowered(s) && Ranked(s, rank) && TypeOk(s, ty) && Wf(Unfold(s, rank, ty)) && Good(Unfold(s, rank, ty))
    ensures ty.SList? ==> TypeOk(s, ty.item) && Wf(Unfold(s, rank, ty.item)) && Good(Unfold(s, rank, ty.item))
    ensures ty.SMap? ==>
              && TypeOk(s, ty.key) && Wf(Unfold(s, rank, ty.key)) && Good(Unfold(s, rank, ty.key))
              && TypeOk(s, ty.value) && Wf(Unfold(s, rank, ty.value)) && Good(Unfold(s, rank, ty.value))
  {
    hide SizeOf;
  }

  lemma {:induction false} GoodNotOversized(s: Schema, rank: seq<nat>, ty: SType)
    requires Lowered(s) && Ranked(s, rank) && TypeOk(s, ty) && Wf(Unfold(s, rank, ty)) && Good(Unfold(s, rank, ty))
    ensures Oversized(s, rank, ty).None?
  {
    match ty {
      case SArray(item, count) => ArrayNotOversized(s, rank, item, count);
      case SList(_, item, _) =>
        ListParts(s, rank, ty);
        hide Wf, Good, SizeOf, Lowered, Ranked;
        GoodNotOversized(s, rank, item);
      case SMap(key, value, _) =>
        ListParts(s, rank, ty);
        hide Wf, Good, SizeOf, Lowered, Ranked;
        GoodNotOversized(s, rank, key);
        GoodNotOversized(s, rank, value);
      case _ => hide Lowered, Ranked;
    }
  }

  /** The codec takes a declaration: its type, and the key of a hub kind, which travels in envelopes. */
  ghost predicate DeclTaken(s: Schema, rank: seq<nat>, id: nat)
    requires Lowered(s) && Ranked(s, rank) && id < |s|
  {
    && Wf(UnfoldDecl(s, rank, id)) && Good(UnfoldDecl(s, rank, id))
    && (s[id].HubDecl? ==> TypeOk(s, s[id].key) && Wf(Unfold(s, rank, s[id].key)) && Good(Unfold(s, rank, s[id].key)))
  }

  lemma {:induction false} FieldsNotOversized(s: Schema, rank: seq<nat>, n: nat, fields: seq<SField>, fs: seq<Field>)
    requires Lowered(s) && Ranked(s, rank) && AreFields(s, rank, n, fields, fs) && Wf(Struct(fs)) && Good(Struct(fs))
    ensures FieldsFine(s, rank, n, fields, fs)
  {
    forall i | 0 <= i < |fields| ensures Oversized(s, rank, fields[i].ty).None? {
      GoodNotOversized(s, rank, fields[i].ty);
    }
  }

  lemma {:induction false} TakenFine(s: Schema, rank: seq<nat>, id: nat)
    requires Lowered(s) && Ranked(s, rank) && id < |s| && DeclTaken(s, rank, id)
    ensures DeclFine(s, rank, id)
  {
    hide SizeOf, Oversized;
    if s[id].HasFields() {
      ObjectFields(s, rank, id);
      FieldsNotOversized(s, rank, rank[id], s[id].fields, UnfoldFields(s, rank, id));
      if s[id].HubDecl? {
        GoodNotOversized(s, rank, s[id].key);
      }
    } else if s[id].UnionDecl? {
      forall i | 0 <= i < |s[id].variants| ensures VariantFine(s, rank, id, i) {
        TakenVariantFine(s, rank, id, i);
      }
    }
  }

  lemma {:induction false} TakenVariantFine(s: Schema, rank: seq<nat>, id: nat, i: nat)
    requires Lowered(s) && Ranked(s, rank) && id < |s| && DeclTaken(s, rank, id) && s[id].UnionDecl? && i < |s[id].variants|
    ensures VariantFine(s, rank, id, i)
  {
    hide SizeOf, Oversized;
    var v := UnfoldVariants(s, rank, id)[i];
    assert v.Data? ==> Wf(v.ty) && Good(v.ty);
    match s[id].variants[i] {
      case SUnit =>
      case SData(ty) =>
        VariantLevel(s, rank, id, i);
        GoodNotOversized(s, rank, ty);
      case SInline(fields) =>
        InlineFields(s, rank, id, i);
        FieldsNotOversized(s, rank, rank[id], fields, UnfoldInline(s, rank, id, i));
    }
  }

  lemma {:induction false} HubKeyGood(s: Schema, rank: seq<nat>, id: nat)
    requires AllFine(s, rank) && id < |s| && s[id].HubDecl?
    ensures TypeOk(s, s[id].key) && Wf(Unfold(s, rank, s[id].key)) && Good(Unfold(s, rank, s[id].key))
  {
    var key, fields := s[id].key, s[id].fields;
    assert DeclOk(s, s[id]) && DeclFine(s, rank, id) && DeclFixed(s, id);
    LoweredClosed(s);
    DeclChecksOk(s, id);
    ChecksOk(s, key);
    FieldChecksOk(s, fields);
    FixedParts(s, Checks(key) + [key], FieldChecks(fields));
    FixedParts(s, Checks(key), [key]);
    TypeGood(s, rank, key);
  }

  /**
   With everything fixed-size that must be, laying out reports nothing exactly when the codec takes
   every declaration.
   */
  lemma {:induction false} NoErrorsExactly(s: Schema, rank: seq<nat>)
    requires Lowered(s) && Ranked(s, rank) && forall id :: 0 <= id < |s| ==> DeclFixed(s, id)
    ensures (forall id :: 0 <= id < |s| ==> DeclFine(s, rank, id)) <==> forall id :: 0 <= id < |s| ==> DeclTaken(s, rank, id)
  {
    hide DeclFine, DeclFixed, Good, Wf;
    if forall id :: 0 <= id < |s| ==> DeclFine(s, rank, id) {
      forall id | 0 <= id < |s| ensures DeclTaken(s, rank, id) {
        DeclGood(s, rank, id);
        if s[id].HubDecl? {
          HubKeyGood(s, rank, id);
        }
      }
    }
    if forall id :: 0 <= id < |s| ==> DeclTaken(s, rank, id) {
      forall id | 0 <= id < |s| ensures DeclFine(s, rank, id) {
        TakenFine(s, rank, id);
      }
    }
  }

  // ----- the phases

  datatype Report = NotFixed | IsRecursive | DoesNotFit | Lays(sizes: seq<Size>)

  /** `check_fixed`, over the declarations in order: whether nothing is reported. */
  method CheckFixed(s: Schema) returns (fixed: bool)
    requires Lowered(s)
    ensures fixed <==> forall id :: 0 <= id < |s| ==> DeclFixed(s, id)
  {
    hide Lowered, FixedIn, DeclFixed;
    LoweredClosed(s);
    var checker := new FixedChecker(s);
    fixed := true;
    for id := 0 to |s|
      invariant checker.Valid() && checker.visiting == [] && fresh(checker)
      invariant fixed <==> forall j :: 0 <= j < id ==> DeclFixed(s, j)
    {
      var all := CheckDecl(s, checker, id);
      fixed := fixed && all;
    }
  }

  method CheckDecl(s: Schema, checker: FixedChecker, id: nat) returns (fixed: bool)
    requires Lowered(s) && checker.Valid() && checker.visiting == [] && checker.defs == s && id < |s|
    modifies checker
    ensures checker.Valid() && checker.visiting == [] && (fixed <==> DeclFixed(s, id))
  {
    hide Lowered, FixedIn;
    DeclChecksOk(s, id);
    var checks := DeclChecks(s[id]);
    fixed := true;
    for k := 0 to |checks|
      invariant checker.Valid() && checker.visiting == []
      invariant fixed <==> forall j :: 0 <= j < k ==> (TypeRefsOk(s, checks[j]); FixedIn(s, checks[j], []))
    {
      TypeRefsOk(s, checks[k]);
      var one := checker.IsFixedIn(checks[k]);
      fixed := fixed && one;
    }
  }

  /**
   The phases in order. Nothing is reported exactly when what must be fixed-size is, no type is
   recursive, and the codec takes every declaration; each is then given its size.
   */
  method LowerPhases(s: Schema) returns (r: Report, ghost rank: seq<nat>)
    requires Lowered(s)
    ensures r.NotFixed? <==> !forall id :: 0 <= id < |s| ==> DeclFixed(s, id)
    ensures !r.NotFixed? ==> (r.IsRecursive? <==> Recursive(s))
    ensures r.Lays? || r.DoesNotFit? ==> Ranked(s, rank)
    ensures r.Lays? || r.DoesNotFit? ==> (r.Lays? <==> forall id :: 0 <= id < |s| ==> DeclTaken(s, rank, id))
    ensures r.Lays? ==>
              && |r.sizes| == |s|
              && forall id :: 0 <= id < |s| ==> Wf(UnfoldDecl(s, rank, id)) && r.sizes[id] == SizeOf(UnfoldDecl(s, rank, id))
  {
    hide DeclFixed, DeclTaken, DeclFine, SizeOf, Wf, UnfoldDecl;
    rank := [];
    var fixed := CheckFixed(s);
    if !fixed {
      return NotFixed, rank;
    }
    var checker := new Checker(s);
    rank := checker.CheckCycles();
    if checker.reports != [] {
      return IsRecursive, rank;
    }
    NoErrorsExactly(s, rank);
    var builder := new Builder(s, rank);
    builder.LayOutAll();
    if builder.errors != [] {
      return DoesNotFit, rank;
    }
    LaidSizes(s, rank, builder.states, builder.layouts, builder.unions);
    var states := builder.states;
    var sizes := seq(|s|, id requires 0 <= id < |s| => states[id].size);
    r := Lays(sizes);
  }

  lemma {:induction false} LaidSizes(s: Schema, rank: seq<nat>, states: seq<State>, layouts: seq<Option<Layout>>, unions: seq<Option<UnionLayout>>)
    requires Lowered(s) && Ranked(s, rank) && |states| == |layouts| == |unions| == |s|
    requires forall id :: 0 <= id < |s| ==> states[id].Done? && Laid(s, rank, id, states[id].size, layouts[id], unions[id])
    ensures forall id :: 0 <= id < |s| ==> Wf(UnfoldDecl(s, rank, id)) && states[id].size == SizeOf(UnfoldDecl(s, rank, id))
  {
    forall id | 0 <= id < |s| ensures Wf(UnfoldDecl(s, rank, id)) && states[id].size == SizeOf(UnfoldDecl(s, rank, id)) {
      UnfoldDeclWf(s, rank, id);
    }
  }
}
