/**
 Derived traits as a greatest fixpoint: every declaration starts out deriving them all, and loses
 those that some part of it turns out not to support.
 */
module Traits {
  import opened Schemas

  datatype Derives = Derives(eq: bool, hash: bool, default: bool, copy: bool)

  const ALL: Derives := Derives(true, true, true, true)

  function And(a: Derives, b: Derives): Derives {
    Derives(a.eq && b.eq, a.hash && b.hash, a.default && b.default, a.copy && b.copy)
  }

  function TypeTraits(ty: SType, traits: seq<Derives>): Derives {
    match ty
    case SScalar(Float(_, _, _, _, _)) => ALL.(eq := false, hash := false)
    case SScalar(Entity) => ALL.(default := false)
    case SScalar(Timestamp) => ALL.(default := false)
    case SScalar(_) => ALL
    case SBlob(text, lengths) =>
      if text || lengths.FixedLength().None? then ALL.(copy := false)
      else ALL.(default := lengths.FixedLength().value <= 32)
    case SArray(item, count) =>
      var inner := TypeTraits(item, traits);
      inner.(default := inner.default && count <= 32)
    case SList(set_, item, _) =>
      var inner := TypeTraits(item, traits);
      if set_ then Derives(inner.eq, false, true, false) else inner.(default := true, copy := false)
    case SMap(key, value, _) => Derives(TypeTraits(key, traits).eq && TypeTraits(value, traits).eq, false, true, false)
    case SNamed(id) => if id < |traits| then traits[id] else ALL
  }

  /** A trait needs every field to have it, but for the default of a field that may be absent. */
  function FieldsTraits(fields: seq<SField>, traits: seq<Derives>): Derives {
    if fields == [] then ALL
    else
      var last := fields[|fields| - 1];
      var inner := TypeTraits(last.ty, traits);
      And(FieldsTraits(fields[..|fields| - 1], traits), inner.(default := last.optional || inner.default))
  }

  function VariantTraits(variant: SVariant, traits: seq<Derives>): Derives {
    match variant
    case SUnit => ALL
    case SData(ty) => TypeTraits(ty, traits)
    case SInline(fields) => FieldsTraits(fields, traits)
  }

  function VariantsTraits(variants: seq<SVariant>, traits: seq<Derives>): Derives {
    // No variant is the one to start from.
    if variants == [] then ALL.(default := false)
    else And(VariantsTraits(variants[..|variants| - 1], traits), VariantTraits(variants[|variants| - 1], traits))
  }

  /** What a declaration supports when the others support `traits`. */
  function DeclTraits(d: Decl, traits: seq<Derives>): Derives {
    match d
    case EnumDecl(_, _) => ALL
    case StructDecl(fields) => FieldsTraits(fields, traits)
    case MessageDecl(fields) => FieldsTraits(fields, traits)
    case HubDecl(_, fields) => FieldsTraits(fields, traits)
    case TypeDecl(target) => TypeTraits(target, traits)
    case UnionDecl(variants) => VariantsTraits(variants, traits)
  }

  // ----- supporting more

  /** `a` supports nothing that `b` does not. */
  predicate AtMost(a: Derives, b: Derives) {
    (a.eq ==> b.eq) && (a.hash ==> b.hash) && (a.default ==> b.default) && (a.copy ==> b.copy)
  }

  predicate AllAtMost(a: seq<Derives>, b: seq<Derives>) {
    |a| == |b| && forall i :: 0 <= i < |a| ==> AtMost(a[i], b[i])
  }

  lemma {:induction false} TypeMonotone(ty: SType, a: seq<Derives>, b: seq<Derives>)
    requires AllAtMost(a, b)
    ensures AtMost(TypeTraits(ty, a), TypeTraits(ty, b))
  {
    match ty {
      case SArray(item, _) => TypeMonotone(item, a, b);
      case SList(_, item, _) => TypeMonotone(item, a, b);
      case SMap(key, value, _) => TypeMonotone(key, a, b); TypeMonotone(value, a, b);
      case _ =>
    }
  }

  lemma {:induction false} FieldsMonotone(fields: seq<SField>, a: seq<Derives>, b: seq<Derives>)
    requires AllAtMost(a, b)
    ensures AtMost(FieldsTraits(fields, a), FieldsTraits(fields, b))
  {
    if fields != [] {
      FieldsMonotone(fields[..|fields| - 1], a, b);
      TypeMonotone(fields[|fields| - 1].ty, a, b);
    }
  }

  lemma {:induction false} VariantsMonotone(variants: seq<SVariant>, a: seq<Derives>, b: seq<Derives>)
    requires AllAtMost(a, b)
    ensures AtMost(VariantsTraits(variants, a), VariantsTraits(variants, b))
  {
    if variants != [] {
      VariantsMonotone(variants[..|variants| - 1], a, b);
      match variants[|variants| - 1] {
        case SUnit =>
        case SData(ty) => TypeMonotone(ty, a, b);
        case SInline(fields) => FieldsMonotone(fields, a, b);
      }
    }
  }

  /** Parts that support more never make a declaration support less. */
  lemma {:induction false} DeclMonotone(d: Decl, a: seq<Derives>, b: seq<Derives>)
    requires AllAtMost(a, b)
    ensures AtMost(DeclTraits(d, a), DeclTraits(d, b))
  {
    match d {
      case EnumDecl(_, _) =>
      case StructDecl(fields) => FieldsMonotone(fields, a, b);
      case MessageDecl(fields) => FieldsMonotone(fields, a, b);
      case HubDecl(_, fields) => FieldsMonotone(fields, a, b);
      case TypeDecl(target) => TypeMonotone(target, a, b);
      case UnionDecl(variants) => VariantsMonotone(variants, a, b);
    }
  }

  // ----- what each trait asks, apart from the equations

  datatype Trait = Eq | Hash | Default | Copy

  predicate Has(d: Derives, t: Trait) {
    match t
    case Eq => d.eq
    case Hash => d.hash
    case Default => d.default
    case Copy => d.copy
  }

  /** `part` is a type without the trait whatever it is made of, or with too many items to default. */
  predicate Refuses(t: Trait, part: SType) {
    match t
    case Eq => part.SScalar? && part.scalar.Float?
    case Hash => (part.SScalar? && part.scalar.Float?) || part.SMap? || (part.SList? && part.set_)
    case Copy =>
      part.SMap? || part.SList? || (part.SBlob? && (part.text || part.lengths.min.None? || part.lengths.min != part.lengths.max))
    case Default =>
      || (part.SScalar? && (part.scalar.Entity? || part.scalar.Timestamp?))
      || (part.SArray? && part.count > 32)
      || (part.SBlob? && !part.text && part.lengths.min.Some? && part.lengths.min == part.lengths.max && part.lengths.min.value > 32)
  }

  /** `part` is `ty` or the items of the arrays it is; other collections default to empty ones. */
  predicate Filled(part: SType, ty: SType) {
    part == ty || (ty.SArray? && Filled(part, ty.item))
  }

  /** The trait of a `ty` asks for that of `part`. */
  predicate AsksType(t: Trait, ty: SType, part: SType) {
    if t.Default? then Filled(part, ty) else Within(part, ty)
  }

  /** The trait of a declaration asks for that of `part`; a default, only for what is not optional. */
  predicate Asks(t: Trait, d: Decl, part: SType) {
    if t.Default? then
      match d
      case TypeDecl(target) => Filled(part, target)
      case EnumDecl(_, _) => false
      case UnionDecl(_) => false
      case _ => exists i :: 0 <= i < |d.fields| && !d.fields[i].optional && Filled(part, d.fields[i].ty)
    else Holds(d, part)
  }

  /** The declaration is without the trait on its own account; no union is ever defaulted. */
  ghost predicate Denies(t: Trait, d: Decl) {
    (t.Default? && d.UnionDecl?) || exists part :: Asks(t, d, part) && Refuses(t, part)
  }

  /** A walk from each declaration to one its trait asks for. */
  predicate IsAsking(s: Schema, t: Trait, walk: seq<nat>) {
    forall k :: 0 <= k < |walk| - 1 ==> walk[k] < |s| && Asks(t, s[walk[k]], SNamed(walk[k + 1]))
  }

  /** Some declaration reached from `id` is without the trait on its own account. */
  ghost predicate Denied(s: Schema, t: Trait, id: nat) {
    exists walk :: DeniedBy(s, t, id, walk)
  }

  ghost predicate DeniedBy(s: Schema, t: Trait, id: nat, walk: seq<nat>) {
    walk != [] && walk[0] == id && IsAsking(s, t, walk) && walk[|walk| - 1] < |s| && Denies(t, s[walk[|walk| - 1]])
  }

  /** `part` has the trait when declarations support `traits`. */
  predicate PartHas(t: Trait, part: SType, traits: seq<Derives>) {
    !Refuses(t, part) && (part.SNamed? && part.id < |traits| ==> Has(traits[part.id], t))
  }

  /** A type has a trait exactly when every part it asks for has. */
  lemma {:induction false} TypeHas(t: Trait, ty: SType, traits: seq<Derives>)
    ensures Has(TypeTraits(ty, traits), t) <==> forall part :: AsksType(t, ty, part) ==> PartHas(t, part, traits)
  {
    assert AsksType(t, ty, ty);
    match ty {
      case SArray(item, _) => TypeHas(t, item, traits); ItemParts(t, ty, item);
      case SList(_, item, _) =>
        TypeHas(t, item, traits);
        if !t.Default? {
          ItemParts(t, ty, item);
        }
      case SMap(key, value, _) =>
        TypeHas(t, key, traits);
        TypeHas(t, value, traits);
        if !t.Default? {
          ItemParts(t, ty, key);
          ItemParts(t, ty, value);
        }
      case _ =>
    }
  }

  lemma {:induction false} ItemParts(t: Trait, ty: SType, item: SType)
    requires if t.Default? then ty.SArray? && ty.item == item else
               || (ty.SArray? && ty.item == item) || (ty.SList? && ty.item == item)
               || (ty.SMap? && (ty.key == item || ty.value == item))
    ensures forall part :: AsksType(t, item, part) ==> AsksType(t, ty, part)
  {
  }

  /** Fields have a trait exactly when each has, but for the default of an optional one. */
  lemma {:induction false} FieldsHave(t: Trait, fields: seq<SField>, traits: seq<Derives>)
    ensures Has(FieldsTraits(fields, traits), t) <==>
            forall i :: 0 <= i < |fields| ==> (t.Default? && fields[i].optional) || Has(TypeTraits(fields[i].ty, traits), t)
  {
    hide TypeTraits;
    if fields != [] {
      var front := fields[..|fields| - 1];
      FieldsHave(t, front, traits);
      assert forall i :: 0 <= i < |front| ==> front[i] == fields[i];
    }
  }

  lemma {:induction false} VariantsHave(t: Trait, variants: seq<SVariant>, traits: seq<Derives>)
    ensures Has(VariantsTraits(variants, traits), t) <==>
            !t.Default? && forall i :: 0 <= i < |variants| ==> Has(VariantTraits(variants[i], traits), t)
  {
    hide VariantTraits;
    if variants != [] {
      var front := variants[..|variants| - 1];
      VariantsHave(t, front, traits);
      assert forall i :: 0 <= i < |front| ==> front[i] == variants[i];
    }
  }

  /** Every part the declaration's trait asks for has it. */
  ghost predicate PartsHave(t: Trait, d: Decl, traits: seq<Derives>) {
    forall part :: Asks(t, d, part) ==> PartHas(t, part, traits)
  }

  lemma {:induction false} FieldPartsHave(t: Trait, d: Decl, traits: seq<Derives>)
    requires d.HasFields()
    ensures Has(FieldsTraits(d.fields, traits), t) <==> PartsHave(t, d, traits)
  {
    hide TypeTraits, FieldsTraits, PartHas, Within, Filled;
    FieldsHave(t, d.fields, traits);
    forall i | 0 <= i < |d.fields| {
      TypeHas(t, d.fields[i].ty, traits);
    }
    if PartsHave(t, d, traits) {
      forall i | 0 <= i < |d.fields| ensures (t.Default? && d.fields[i].optional) || Has(TypeTraits(d.fields[i].ty, traits), t) {
        if !(t.Default? && d.fields[i].optional) {
          forall part | AsksType(t, d.fields[i].ty, part) ensures PartHas(t, part, traits) {
            assert Asks(t, d, part);
          }
        }
      }
    }
  }

  lemma {:induction false} VariantPartsHave(t: Trait, variant: SVariant, traits: seq<Derives>)
    requires !t.Default?
    ensures Has(VariantTraits(variant, traits), t) <==> forall part :: VariantHolds(variant, part) ==> PartHas(t, part, traits)
  {
    hide TypeTraits, FieldsTraits, PartHas, Within;
    match variant {
      case SUnit =>
      case SData(ty) =>
        TypeHas(t, ty, traits);
        assert forall part :: AsksType(t, ty, part) <==> VariantHolds(variant, part);
      case SInline(fields) =>
        FieldPartsHave(t, StructDecl(fields), traits);
        assert forall part :: Asks(t, StructDecl(fields), part) <==> VariantHolds(variant, part);
    }
  }

  lemma {:induction false} UnionPartsHave(t: Trait, d: Decl, traits: seq<Derives>)
    requires d.UnionDecl?
    ensures Has(VariantsTraits(d.variants, traits), t) <==> !t.Default? && PartsHave(t, d, traits)
  {
    hide VariantTraits, VariantsTraits, PartHas, VariantHolds;
    VariantsHave(t, d.variants, traits);
    if !t.Default? {
      forall i | 0 <= i < |d.variants| {
        VariantPartsHave(t, d.variants[i], traits);
      }
      if PartsHave(t, d, traits) {
        forall i | 0 <= i < |d.variants| ensures Has(VariantTraits(d.variants[i], traits), t) {
          forall part | VariantHolds(d.variants[i], part) ensures PartHas(t, part, traits) {
            assert Asks(t, d, part);
          }
        }
      }
    }
  }

  /** A declaration has a trait exactly when all it asks for has, a union never a default. */
  lemma {:induction false} DeclHas(t: Trait, d: Decl, traits: seq<Derives>)
    ensures Has(DeclTraits(d, traits), t) <==> !(t.Default? && d.UnionDecl?) && PartsHave(t, d, traits)
  {
    hide TypeTraits, FieldsTraits, VariantsTraits, PartHas, Within, Filled;
    match d {
      case EnumDecl(_, _) =>
      case TypeDecl(target) =>
        TypeHas(t, target, traits);
        assert forall part :: AsksType(t, target, part) <==> Asks(t, d, part);
      case UnionDecl(_) => UnionPartsHave(t, d, traits);
      case _ => FieldPartsHave(t, d, traits);
    }
  }

  /** The same by what the declaration denies and whom it asks. */
  lemma {:induction false} DeclHasUnless(t: Trait, d: Decl, traits: seq<Derives>)
    ensures Has(DeclTraits(d, traits), t) <==>
            !Denies(t, d) && forall id: nat :: id < |traits| && Asks(t, d, SNamed(id)) ==> Has(traits[id], t)
  {
    hide DeclTraits, Asks, Refuses;
    DeclHas(t, d, traits);
    forall part | PartsHave(t, d, traits) && Asks(t, d, part) ensures !Refuses(t, part) {
      assert PartHas(t, part, traits);
    }
    forall id: nat | PartsHave(t, d, traits) && id < |traits| && Asks(t, d, SNamed(id)) ensures Has(traits[id], t) {
      assert PartHas(t, SNamed(id), traits);
    }
  }

  // ----- the iteration

  function One(b: bool): nat {
    if b then 1 else 0
  }

  /** How many traits are still supported, the iteration's measure. */
  function Supported(traits: seq<Derives>): nat {
    if traits == [] then 0
    else
      var last := traits[|traits| - 1];
      Supported(traits[..|traits| - 1]) + One(last.eq) + One(last.hash) + One(last.default) + One(last.copy)
  }

  lemma {:induction false} SupportedDrops(traits: seq<Derives>, i: nat, less: Derives)
    requires i < |traits| && AtMost(less, traits[i]) && less != traits[i]
    ensures Supported(traits[i := less]) < Supported(traits)
  {
    var n := |traits| - 1;
    if i < n {
      SupportedDrops(traits[..n], i, less);
      assert traits[i := less][..n] == traits[..n][i := less];
    } else {
      assert traits[i := less][..n] == traits[..n];
    }
  }

  /** Each declaration supports at least what its parts allow. */
  predicate Generous(s: Schema, traits: seq<Derives>) {
    |traits| == |s| && forall i :: 0 <= i < |s| ==> AtMost(DeclTraits(s[i], traits), traits[i])
  }

  /** Each declaration supports exactly what its parts allow. */
  predicate Solves(s: Schema, traits: seq<Derives>) {
    |traits| == |s| && forall i :: 0 <= i < |s| ==> traits[i] == DeclTraits(s[i], traits)
  }

  /** Nothing is claimed that the parts, supporting as much, would not allow. */
  predicate Claims(s: Schema, claims: seq<Derives>) {
    |claims| == |s| && forall i :: 0 <= i < |s| ==> AtMost(claims[i], DeclTraits(s[i], claims))
  }

  lemma {:induction false} UpdateKeeps(s: Schema, traits: seq<Derives>, i: nat)
    requires Generous(s, traits) && i < |s|
    ensures Generous(s, traits[i := DeclTraits(s[i], traits)])
  {
    var after := traits[i := DeclTraits(s[i], traits)];
    assert AllAtMost(after, traits);
    forall j | 0 <= j < |s| ensures AtMost(DeclTraits(s[j], after), after[j]) {
      DeclMonotone(s[j], after, traits);
    }
  }

  lemma {:induction false} UpdateAbove(s: Schema, traits: seq<Derives>, i: nat, claims: seq<Derives>)
    requires |traits| == |s| && Claims(s, claims) && AllAtMost(claims, traits) && i < |s|
    ensures AllAtMost(claims, traits[i := DeclTraits(s[i], traits)])
  {
    DeclMonotone(s[i], claims, traits);
  }

  /** All claims are met by `traits`. */
  ghost predicate MeetsAllClaims(s: Schema, traits: seq<Derives>) {
    forall claims :: Claims(s, claims) ==> AllAtMost(claims, traits)
  }

  // ----- what the answer means

  lemma {:induction false} DeniedLacks(s: Schema, traits: seq<Derives>, t: Trait, id: nat, walk: seq<nat>)
    requires Solves(s, traits) && DeniedBy(s, t, id, walk)
    ensures id < |s| && !Has(traits[id], t)
    decreases |walk|
  {
    hide DeclTraits, Asks, Denies;
    if |walk| > 1 {
      assert walk[0] < |s| && Asks(t, s[walk[0]], SNamed(walk[1]));
      assert DeniedBy(s, t, walk[1], walk[1..]);
      DeniedLacks(s, traits, t, walk[1], walk[1..]);
    }
    DeclHasUnless(t, s[id], traits);
  }

  /** Every trait that nothing reached denies. */
  ghost function Undenied(s: Schema): (claims: seq<Derives>)
    ensures |claims| == |s|
  {
    seq(|s|, id requires 0 <= id < |s| =>
      Derives(!Denied(s, Eq, id), !Denied(s, Hash, id), !Denied(s, Default, id), !Denied(s, Copy, id)))
  }

  lemma {:induction false} DeniedThrough(s: Schema, t: Trait, id: nat, next: nat)
    requires id < |s| && Asks(t, s[id], SNamed(next)) && Denied(s, t, next)
    ensures Denied(s, t, id)
  {
    hide Asks, Denies;
    var walk :| DeniedBy(s, t, next, walk);
    assert DeniedBy(s, t, id, [id] + walk);
  }

  lemma {:induction false} UndeniedHolds(s: Schema, t: Trait, id: nat)
    requires id < |s| && Has(Undenied(s)[id], t)
    ensures Has(DeclTraits(s[id], Undenied(s)), t)
  {
    hide Asks, DeclTraits, Denies;
    var claims := Undenied(s);
    assert !Denied(s, t, id);
    assert Denies(t, s[id]) ==> DeniedBy(s, t, id, [id]);
    forall next: nat | next < |s| && Asks(t, s[id], SNamed(next)) ensures Has(claims[next], t) {
      if Denied(s, t, next) {
        DeniedThrough(s, t, id, next);
      }
    }
    DeclHasUnless(t, s[id], claims);
  }

  /** A declaration ends up with a trait exactly when nothing its trait asks for, however far, denies it. */
  lemma {:induction false} TraitsMean(s: Schema, traits: seq<Derives>, t: Trait, id: nat)
    requires Solves(s, traits) && MeetsAllClaims(s, traits) && id < |s|
    ensures Has(traits[id], t) <==> !Denied(s, t, id)
  {
    hide DeclTraits, DeniedBy, Solves;
    if Denied(s, t, id) {
      var walk :| DeniedBy(s, t, id, walk);
      DeniedLacks(s, traits, t, id, walk);
    } else {
      var claims := Undenied(s);
      forall i | 0 <= i < |s| ensures AtMost(claims[i], DeclTraits(s[i], claims)) {
        forall any: Trait | Has(claims[i], any) ensures Has(DeclTraits(s[i], claims), any) {
          UndeniedHolds(s, any, i);
        }
        AtMostHas(claims[i], DeclTraits(s[i], claims));
      }
      assert Claims(s, claims) && AllAtMost(claims, traits);
    }
  }

  lemma {:induction false} AtMostHas(a: Derives, b: Derives)
    requires forall t: Trait :: Has(a, t) ==> Has(b, t)
    ensures AtMost(a, b)
  {
    assert Has(a, Eq) == a.eq && Has(a, Hash) == a.hash && Has(a, Default) == a.default && Has(a, Copy) == a.copy;
  }

  /**
   `traits`: in place, until nothing changes. It ends, with each declaration supporting exactly the
   traits that nothing reached from it denies: its parts allow just those, and no other answer to
   what the parts allow has more.
   */
  method Iterate(s: Schema) returns (traits: seq<Derives>)
    ensures Solves(s, traits)
    ensures forall other :: Solves(s, other) ==> AllAtMost(other, traits)
    ensures forall id: nat, t: Trait :: id < |s| ==> (Has(traits[id], t) <==> !Denied(s, t, id))
  {
    hide DeclTraits, Supported;
    traits := seq(|s|, _ => ALL);
    var changed := true;
    while changed
      invariant Generous(s, traits) && MeetsAllClaims(s, traits)
      invariant !changed ==> Solves(s, traits)
      decreases Supported(traits), changed
    {
      changed := false;
      ghost var start := traits;
      for index := 0 to |s|
        invariant Generous(s, traits) && MeetsAllClaims(s, traits)
        invariant if changed then Supported(traits) < Supported(start) else traits == start
        invariant !changed ==> forall i :: 0 <= i < index ==> traits[i] == DeclTraits(s[i], traits)
      {
        var all := DeclTraits(s[index], traits);
        if all != traits[index] {
          UpdateKeeps(s, traits, index);
          SupportedDrops(traits, index, all);
          forall claims | Claims(s, claims) ensures AllAtMost(claims, traits[index := all]) {
            UpdateAbove(s, traits, index, claims);
          }
          traits := traits[index := all];
          changed := true;
        }
      }
    }
    forall other | Solves(s, other) ensures AllAtMost(other, traits) {
      assert Claims(s, other);
    }
    forall id: nat, t: Trait | id < |s| ensures Has(traits[id], t) <==> !Denied(s, t, id) {
      TraitsMean(s, traits, t, id);
    }
  }
}
