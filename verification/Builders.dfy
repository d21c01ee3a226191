/**
 The layout builder: it lays out each declaration once, in whatever order references lead to it,
 and collects what is too large for a message.
 */
module Builders {
  import opened Wrappers
  import opened Layouts
  import opened Scalars
  import opened Types
  import opened Schemas
  import opened FixedSizes

  datatype State = Todo | Busy | Done(size: Size)

  datatype UnionLayout = UnionLayout(size: Size, tag: nat, variants: seq<Option<Layout>>)

  /** Where something too large is written. */
  datatype LayoutError = LayoutError(def: nat, variant: Option<nat>, field: Option<nat>)

  /** A value of `u64` kept within `u32`. */
  function Saturate(value: nat): nat {
    Min(value, U32_MAX)
  }

  // ----- one object, from its members

  /** A slot before its offset is known. */
  function FirstSlot(ms: seq<Member>, i: nat): Slot
    requires i < |ms|
  {
    if SlotOf(ms, i).AtSlot? then AtSlot(0) else SlotOf(ms, i)
  }

  predicate FirstSlots(ms: seq<Member>, slots: seq<Slot>) {
    |slots| == |ms| && forall i :: 0 <= i < |ms| ==> slots[i] == FirstSlot(ms, i)
  }

  lemma {:induction false} VarMaxStep(ms: seq<Member>, i: nat)
    requires i < |ms|
    ensures var rest, m := VarMax(ms[..i]), ms[i];
            VarMax(ms[..i + 1]) ==
              if !m.IsVar() then rest
              else if rest.Some? && m.size.max.Some? then Some(rest.value + m.size.max.value)
              else None
  {
    assert ms[..i + 1][..i] == ms[..i];
  }

  lemma {:induction false} SlotKinds(ms: seq<Member>, i: nat)
    requires i < |ms| && (ms[i].flag ==> ms[i].size.Fixed?)
    ensures FirstSlot(ms, i).AtSlot? <==> ms[i].IsAt()
    ensures FirstSlot(ms, i).OptionalSlot? <==> ms[i].IsOptional()
    ensures FirstSlot(ms, i).VarSlot? <==> ms[i].IsVar()
  {
  }

  /** What a field's slot adds to each part of the object. */
  lemma {:induction false} PlaceStep(ms: seq<Member>, i: nat)
    requires i < |ms| && (ms[i].flag ==> ms[i].size.Fixed?)
    ensures var slot, max := FirstSlot(ms, i), ms[i].size.Max();
            && SlotOf(ms, i) == (if slot.AtSlot? then AtSlot(AsU32(Bitmap(ms) + AtBytes(ms[..i]))) else slot)
            && AtBytes(ms[..i + 1]) == AtBytes(ms[..i]) + (if slot.AtSlot? then max.GetOr(0) else 0)
            && OptionalBytes(ms[..i + 1]) == OptionalBytes(ms[..i]) + (if slot.OptionalSlot? then max.GetOr(0) else 0)
            && VarMax(ms[..i + 1]) ==
                 if !slot.VarSlot? then VarMax(ms[..i])
                 else if VarMax(ms[..i]).Some? && max.Some? then Some(VarMax(ms[..i]).value + max.value)
                 else None
  {
    hide AtBytes, OptionalBytes, VarMax, AsU32, Bits;
    PrefixStep(ms, i);
    VarMaxStep(ms, i);
    SlotKinds(ms, i);
  }

  /** The second pass over the slots: offsets are filled in, and the parts' sizes added up. */
  method Place(ghost ms: seq<Member>, bitmap: nat, first: seq<Slot>, sizes: seq<Size>)
    returns (slots: seq<Slot>, offset: nat, optional: nat, most: Option<nat>)
    requires FirstSlots(ms, first) && |sizes| == |ms| && (forall i :: 0 <= i < |ms| ==> sizes[i] == ms[i].size)
    requires bitmap == Bitmap(ms) && forall i :: 0 <= i < |ms| && ms[i].flag ==> ms[i].size.Fixed?
    ensures |slots| == |ms| && forall i :: 0 <= i < |ms| ==> slots[i] == SlotOf(ms, i)
    ensures offset == Boundaries(ms) && optional == OptionalBytes(ms) && most == VarMax(ms)
  {
    hide SlotOf, FirstSlot, AtBytes, OptionalBytes, VarMax, AsU32;
    slots := first;
    NothingPlaced(ms);
    offset, optional, most := bitmap, 0, Some(0);
    for i := 0 to |slots|
      invariant |slots| == |ms|
      invariant offset == bitmap + AtBytes(ms[..i]) && optional == OptionalBytes(ms[..i]) && most == VarMax(ms[..i])
      invariant forall j :: 0 <= j < i ==> slots[j] == SlotOf(ms, j)
      invariant forall j :: i <= j < |ms| ==> slots[j] == FirstSlot(ms, j)
    {
      PlaceStep(ms, i);
      var max := sizes[i].Max();
      match slots[i] {
        case AtSlot(_) =>
          slots := slots[i := AtSlot(AsU32(offset))];
          offset := offset + max.GetOr(0);
        case OptionalSlot(_) => optional := optional + max.GetOr(0);
        case VarSlot(_, _) => most := if most.Some? && max.Some? then Some(most.value + max.value) else None;
        case _ =>
      }
    }
    assert ms[..|ms|] == ms;
  }

  lemma {:induction false} NothingPlaced(ms: seq<Member>)
    ensures AtBytes(ms[..0]) == 0 && OptionalBytes(ms[..0]) == 0 && VarMax(ms[..0]) == Some(0)
  {
  }

  /** The widths and sizes, once the parts are known. */
  method Finish(ghost ms: seq<Member>, bitmap: nat, vars: nat, slots: seq<Slot>, boundaries: nat, optional: nat, most: Option<nat>)
    returns (layout: Layout, head: nat)
    requires |slots| == |ms| && forall i :: 0 <= i < |ms| ==> slots[i] == SlotOf(ms, i)
    requires forall i :: 0 <= i < |ms| && ms[i].flag ==> ms[i].size.Fixed?
    requires bitmap == Bitmap(ms) && vars == Vars(ms)
    requires boundaries == Boundaries(ms) && optional == OptionalBytes(ms) && most == VarMax(ms)
    ensures layout == LayoutOf(ms) && head == Head(ms)
  {
    hide SlotOf, AtBytes, OptionalBytes, VarMax, Vars, Bitmap, Boundaries;
    var count := if vars == 0 then 0 else vars - 1;
    // What the object would take at most with one-byte boundaries decides their width.
    var narrow := if most.None? then None else Bound(boundaries + count + optional + most.value);
    var boundary := LengthWidth(narrow);
    head := boundaries + count * boundary;
    TimesIsProduct(count, boundary);
    // Bits take no room of their own, so an object without these slots is of fixed size.
    var varies := exists i :: 0 <= i < |slots| && (slots[i].OptionalSlot? || slots[i].VarSlot?);
    VariesIs(ms, slots);
    var size := if !varies then Fixed(Saturate(head))
                else Var(if most.None? then None else Bound(head + optional + most.value));
    assert slots == LayoutOf(ms).fields;
    layout := Layout(size, bitmap, Saturate(boundaries), boundary, Saturate(head), vars, slots);
  }

  lemma {:induction false} VariesIs(ms: seq<Member>, slots: seq<Slot>)
    requires |slots| == |ms| && forall i :: 0 <= i < |ms| ==> slots[i] == SlotOf(ms, i)
    requires forall i :: 0 <= i < |ms| && ms[i].flag ==> ms[i].size.Fixed?
    ensures Varies(ms) <==> exists i :: 0 <= i < |slots| && (slots[i].OptionalSlot? || slots[i].VarSlot?)
  {
    forall i | 0 <= i < |ms| ensures slots[i].OptionalSlot? || slots[i].VarSlot? <==> ms[i].IsOptional() || ms[i].IsVar() {
      SlotKinds(ms, i);
    }
  }

  // ----- what each declaration's layout is

  /** The fields of an object and what they unfold to, all below number `n`. */
  ghost predicate AreFields(s: Schema, rank: seq<nat>, n: nat, fields: seq<SField>, fs: seq<Field>)
    requires Lowered(s) && Ranked(s, rank)
  {
    && |fs| == |fields|
    && forall i :: 0 <= i < |fields| ==>
         && TypeOk(s, fields[i].ty) && Level(rank, fields[i].ty) <= n
         && fs[i] == Field(Unfold(s, rank, fields[i].ty), fields[i].optional) && Wf(fs[i].ty)
  }

  lemma {:induction false} ObjectFields(s: Schema, rank: seq<nat>, id: nat)
    requires Lowered(s) && Ranked(s, rank) && id < |s| && s[id].HasFields()
    ensures AreFields(s, rank, rank[id], s[id].fields, UnfoldFields(s, rank, id))
  {
    forall i | 0 <= i < |s[id].fields| ensures TypeOk(s, s[id].fields[i].ty) && Level(rank, s[id].fields[i].ty) <= rank[id] {
      FieldLevel(s, rank, id, i);
    }
    UnfoldFieldsWf(s, rank, id);
  }

  lemma {:induction false} InlineFields(s: Schema, rank: seq<nat>, id: nat, i: nat)
    requires Lowered(s) && Ranked(s, rank) && id < |s| && s[id].UnionDecl? && i < |s[id].variants| && s[id].variants[i].SInline?
    ensures AreFields(s, rank, rank[id], s[id].variants[i].fields, UnfoldInline(s, rank, id, i))
  {
    var fields := s[id].variants[i].fields;
    forall j | 0 <= j < |fields| ensures TypeOk(s, fields[j].ty) && Level(rank, fields[j].ty) <= rank[id] {
      InlineLevel(s, rank, id, i, j);
    }
    UnfoldInlineWf(s, rank, id, i);
  }

  /** `oversized`: the size of a part of `ty`, looking past collections but not into names, that no message holds. */
  ghost function Oversized(s: Schema, rank: seq<nat>, ty: SType): Option<nat>
    requires Lowered(s) && Ranked(s, rank) && TypeOk(s, ty)
  {
    match ty
    case SNamed(_) => None
    case SList(_, item, _) => Oversized(s, rank, item)
    case SMap(key, value, _) => if Oversized(s, rank, key).Some? then Oversized(s, rank, key) else Oversized(s, rank, value)
    case _ =>
      UnfoldWf(s, rank, ty);
      var size := SizeOf(Unfold(s, rank, ty));
      if size.Fixed? && size.bytes > MAX_SIZE then Some(size.bytes) else None
  }

  /** No field of an object is too large, nor is its head. */
  ghost predicate FieldsFine(s: Schema, rank: seq<nat>, n: nat, fields: seq<SField>, fs: seq<Field>)
    requires Lowered(s) && Ranked(s, rank) && AreFields(s, rank, n, fields, fs)
  {
    && (forall i :: 0 <= i < |fields| ==> Oversized(s, rank, fields[i].ty).None?)
    && Head(Types.Members(fs)) <= MAX_SIZE
  }

  ghost predicate VariantFine(s: Schema, rank: seq<nat>, id: nat, i: nat)
    requires Lowered(s) && Ranked(s, rank) && id < |s| && s[id].UnionDecl? && i < |s[id].variants|
  {
    match s[id].variants[i]
    case SUnit => true
    case SData(ty) => VariantLevel(s, rank, id, i); Oversized(s, rank, ty).None?
    case SInline(fields) => InlineFields(s, rank, id, i); FieldsFine(s, rank, rank[id], fields, UnfoldInline(s, rank, id, i))
  }

  /** Nothing is reported of a declaration. */
  ghost predicate DeclFine(s: Schema, rank: seq<nat>, id: nat)
    requires Lowered(s) && Ranked(s, rank) && id < |s|
  {
    assert DeclOk(s, s[id]);
    && (s[id].HasFields() ==>
          (ObjectFields(s, rank, id); FieldsFine(s, rank, rank[id], s[id].fields, UnfoldFields(s, rank, id))))
    && (s[id].HubDecl? ==> Oversized(s, rank, s[id].key).None?)
    && (s[id].UnionDecl? ==> forall i :: 0 <= i < |s[id].variants| ==> VariantFine(s, rank, id, i))
  }

  ghost function VariantLayout(s: Schema, rank: seq<nat>, id: nat, i: nat): Option<Layout>
    requires Lowered(s) && Ranked(s, rank) && id < |s| && s[id].UnionDecl? && i < |s[id].variants|
  {
    if !s[id].variants[i].SInline? then None
    else
      InlineFields(s, rank, id, i);
      Some(LayoutOf(Types.Members(UnfoldInline(s, rank, id, i))))
  }

  ghost predicate IsUnionLayout(s: Schema, rank: seq<nat>, id: nat, layout: UnionLayout)
    requires Lowered(s) && Ranked(s, rank) && id < |s| && s[id].UnionDecl?
  {
    UnfoldDeclWf(s, rank, id);
    && layout.size == SizeOf(UnfoldDecl(s, rank, id))
    && layout.tag == TagWidth(|s[id].variants|)
    && |layout.variants| == |s[id].variants|
    && forall i :: 0 <= i < |layout.variants| ==> layout.variants[i] == VariantLayout(s, rank, id, i)
  }

  /** What is kept of a declaration that is done is its size and its layout. */
  ghost predicate Laid(s: Schema, rank: seq<nat>, id: nat, size: Size, layout: Option<Layout>, union: Option<UnionLayout>)
    requires Lowered(s) && Ranked(s, rank) && id < |s|
  {
    UnfoldDeclWf(s, rank, id);
    && size == SizeOf(UnfoldDecl(s, rank, id))
    && (s[id].HasFields() ==>
          (UnfoldFieldsWf(s, rank, id); layout == Some(LayoutOf(Types.Members(UnfoldFields(s, rank, id))))))
    && (s[id].UnionDecl? ==> union.Some? && IsUnionLayout(s, rank, id, union.value))
  }

  /**
   What the builder keeps: every declaration done is laid out, and with `pending` saying whether
   those being laid out have been fine so far, there are no errors exactly when all have.
   */
  ghost predicate Built(s: Schema, rank: seq<nat>, states: seq<State>, layouts: seq<Option<Layout>>,
      unions: seq<Option<UnionLayout>>, errors: seq<LayoutError>, pending: bool)
  {
    && Lowered(s) && Ranked(s, rank) && |states| == |layouts| == |unions| == |s|
    && (forall id :: 0 <= id < |s| && states[id].Done? ==> Laid(s, rank, id, states[id].size, layouts[id], unions[id]))
    && (errors == [] <==> pending && forall id :: 0 <= id < |s| && states[id].Done? ==> DeclFine(s, rank, id))
  }

  /** What is being laid out stays so, and what is done stays done. */
  ghost predicate Kept(before: seq<State>, after: seq<State>) {
    && |before| == |after|
    && forall id :: 0 <= id < |before| ==>
         (before[id].Done? ==> after[id] == before[id]) && (before[id].Busy? <==> after[id].Busy?)
  }

  /** What is being laid out is a hub kind, which nothing names, or is numbered `n` or above. */
  ghost predicate BusyAbove(s: Schema, rank: seq<nat>, states: seq<State>, n: nat) {
    |states| == |s| == |rank| && forall id :: 0 <= id < |s| && states[id].Busy? ==> s[id].HubDecl? || rank[id] >= n
  }

  lemma {:induction false} KeptAbove(s: Schema, rank: seq<nat>, before: seq<State>, after: seq<State>, n: nat)
    requires Kept(before, after) && BusyAbove(s, rank, before, n)
    ensures BusyAbove(s, rank, after, n)
  {
  }

  lemma {:induction false} KeptSelf(states: seq<State>)
    ensures Kept(states, states)
  {
  }

  lemma {:induction false} KeptTrans(a: seq<State>, b: seq<State>, c: seq<State>)
    requires Kept(a, b) && Kept(b, c)
    ensures Kept(a, c)
  {
  }

  predicate VariantOkay(variant: Variant) {
    variant.Data? ==> Wf(variant.ty)
  }

  class Builder {
    const schema: Schema
    ghost const rank: seq<nat>
    var states: seq<State>
    var layouts: seq<Option<Layout>>
    var unions: seq<Option<UnionLayout>>
    var errors: seq<LayoutError>
    ghost var pending: bool

    ghost predicate Valid()
      reads this
    {
      Built(schema, rank, states, layouts, unions, errors, pending)
    }

    constructor (schema: Schema, ghost rank: seq<nat>)
      requires Lowered(schema) && Ranked(schema, rank)
      ensures Valid() && this.schema == schema && this.rank == rank && pending && errors == []
      ensures forall id :: 0 <= id < |schema| ==> states[id].Todo?
    {
      this.schema := schema;
      this.rank := rank;
      this.states := seq(|schema|, _ => Todo);
      this.layouts := seq(|schema|, _ => None);
      this.unions := seq(|schema|, _ => None);
      this.errors := [];
      this.pending := true;
    }

    /** `type_size`, laying out the declarations it meets. */
    method SizeOfType(ty: SType) returns (size: Size)
      requires Valid() && TypeOk(schema, ty) && BusyAbove(schema, rank, states, Level(rank, ty))
      modifies this
      ensures Valid() && Kept(old(states), states) && pending == old(pending)
      ensures Wf(Unfold(schema, rank, ty)) && size == SizeOf(Unfold(schema, rank, ty))
      decreases 0, Level(rank, ty), 0, ty
    {
      hide Built, Laid, DeclFine, Lowered, Ranked;
      BuiltOk(schema, rank, states, layouts, unions, errors, pending);
      UnfoldWf(schema, rank, ty);
      match ty {
        case SScalar(scalar) => size := Fixed(ScalarSize(scalar));
        case SBlob(_, lengths) =>
          size := if lengths.FixedLength().Some? then Fixed(Saturate(lengths.FixedLength().value))
                  else Var(BoundOption(lengths.max));
        case SArray(item, count) =>
          var inner := SizeOfType(item);
          size := ArraySize(inner, count);
        case SList(_, item, lengths) =>
          var inner := SizeOfType(item);
          size := Var(SequenceMax(SequenceOf(inner, lengths), inner, lengths));
        case SMap(key, value, lengths) =>
          var first := SizeOfType(key);
          KeptAbove(schema, rank, old(states), states, Level(rank, value));
          var second := SizeOfType(value);
          var entry := PairSize(first, second);
          size := Var(SequenceMax(SequenceOf(entry, lengths), entry, lengths));
        case SNamed(id) => size := Def(id);
      }
    }

    /** `oversized`. */
    method FindOversized(ty: SType) returns (r: Option<nat>)
      requires Valid() && TypeOk(schema, ty) && BusyAbove(schema, rank, states, Level(rank, ty))
      modifies this
      ensures Valid() && Kept(old(states), states) && pending == old(pending)
      ensures r == Oversized(schema, rank, ty)
      decreases 0, Level(rank, ty), 1, ty
    {
      hide Built, Laid, DeclFine, Lowered, Ranked;
      BuiltOk(schema, rank, states, layouts, unions, errors, pending);
      match ty {
        case SNamed(_) => r := None;
        case SList(_, item, _) => r := FindOversized(item);
        case SMap(key, value, _) =>
          r := FindOversized(key);
          if r.None? {
            KeptAbove(schema, rank, old(states), states, Level(rank, value));
            r := FindOversized(value);
          }
        case _ =>
          var size := SizeOfType(ty);
          r := if size.Fixed? && size.bytes > MAX_SIZE then Some(size.bytes) else None;
      }
    }

    /** The first pass over the fields: a field's size and slot, reported when it is too large. */
    method LayOutField(id: nat, variant: Option<nat>, fields: seq<SField>, ghost fs: seq<Field>, i: nat, bits: nat, vars: nat)
      returns (slot: Slot, size: Size, large: bool)
      requires Valid() && id < |schema| && AreFields(schema, rank, rank[id], fields, fs) && BusyAbove(schema, rank, states, rank[id])
      requires WfFields(fs) && i < |fields| == |Types.Members(fs)|
      requires bits == Bits(Types.Members(fs)[..i]) && vars == Vars(Types.Members(fs)[..i])
      modifies this
      ensures Valid() && Kept(old(states), states)
      ensures large <==> Oversized(schema, rank, fields[i].ty).Some?
      ensures pending == (old(pending) && !large)
      ensures size == Types.Members(fs)[i].size && slot == FirstSlot(Types.Members(fs), i)
      ensures bits + BitsFor(fields[i].optional, slot) == Bits(Types.Members(fs)[..i + 1])
      ensures (if slot.VarSlot? then vars + 1 else vars) == Vars(Types.Members(fs)[..i + 1])
      decreases if schema[id].HubDecl? then 1 else 0, rank[id], 2
    {
      hide Built, Laid, DeclFine, Lowered, Ranked, SizeOf, Unfold, Followed, SlotFor, FirstSlot, Wf, Oversized, Bits, Vars;
      BuiltOk(schema, rank, states, layouts, unions, errors, pending);
      WfFieldsOf(schema, rank, rank[id], fields, fs);
      ghost var start := states;
      AboveLower(schema, rank, states, rank[id], Level(rank, fields[i].ty));
      size := SizeOfType(fields[i].ty);
      KeptAbove(schema, rank, start, states, Level(rank, fields[i].ty));
      ghost var sized := states;
      var found := FindOversized(fields[i].ty);
      KeptTrans(start, sized, states);
      large := found.Some?;
      if large {
        ReportKeeps(schema, rank, states, layouts, unions, errors, pending, LayoutError(id, variant, Some(i)));
        errors := errors + [LayoutError(id, variant, Some(i))];
        pending := false;
      }
      // What the field resolves to decides, so a bit may hide behind names.
      var resolved := Resolve(schema, fields[i].ty);
      ResolvedIsScalar(schema, rank, fields[i].ty);
      slot := SlotFor(fields[i].optional, resolved == SScalar(Bool), size, bits, vars);
      NextSlot(Types.Members(fs), i, resolved == SScalar(Bool), bits, vars);
    }

    /** Both passes over a run of fields, then the sizes that follow from them. */
    method LayOut(id: nat, variant: Option<nat>, fields: seq<SField>, ghost fs: seq<Field>) returns (layout: Layout)
      requires Valid() && id < |schema| && AreFields(schema, rank, rank[id], fields, fs) && BusyAbove(schema, rank, states, rank[id])
      modifies this
      ensures Valid() && Kept(old(states), states)
      ensures WfFields(fs) && layout == LayoutOf(Types.Members(fs))
      ensures pending == (old(pending) && FieldsFine(schema, rank, rank[id], fields, fs))
      decreases if schema[id].HubDecl? then 1 else 0, rank[id], 3
    {
      hide Built, Lowered, Ranked, SizeOf, Unfold, FirstSlot, Head, Wf, Oversized, Bits, Vars, Kept, BusyAbove, LayoutOf;
      BuiltOk(schema, rank, states, layouts, unions, errors, pending);
      WfFieldsOf(schema, rank, rank[id], fields, fs);
      ghost var ms := Types.Members(fs);
      var bits, vars := 0, 0;
      var slots: seq<Slot>, sizes: seq<Size> := [], [];
      var oversized := false;
      NoMembers(ms);
      KeptSelf(states);
      for i := 0 to |fields|
        invariant Valid() && Kept(old(states), states) && BusyAbove(schema, rank, states, rank[id])
        invariant |slots| == |sizes| == i && bits == Bits(ms[..i]) && vars == Vars(ms[..i])
        invariant forall j :: 0 <= j < i ==> sizes[j] == ms[j].size && slots[j] == FirstSlot(ms, j)
        invariant oversized <==> exists j :: 0 <= j < i && Oversized(schema, rank, fields[j].ty).Some?
        invariant pending == (old(pending) && !oversized)
      {
        ghost var start := states;
        var slot, size, large := LayOutField(id, variant, fields, fs, i, bits, vars);
        KeptTrans(old(states), start, states);
        KeptAbove(schema, rank, start, states, rank[id]);
        oversized := oversized || large;
        bits := bits + BitsFor(fields[i].optional, slot);
        vars := if slot.VarSlot? then vars + 1 else vars;
        slots, sizes := slots + [slot], sizes + [size];
      }
      assert ms[..|ms|] == ms;
      FlagsFixed(fs);
      var placed, boundaries, optional, most := Place(ms, (bits + 7) / 8, slots, sizes);
      var head;
      layout, head := Finish(ms, (bits + 7) / 8, vars, placed, boundaries, optional, most);
      if head > MAX_SIZE && !oversized {
        ReportKeeps(schema, rank, states, layouts, unions, errors, pending, LayoutError(id, variant, None));
        errors := errors + [LayoutError(id, variant, None)];
        pending := false;
      }
    }

    /** Lays out a union: the largest of its variants, behind its tag. */
    method DefUnion(id: nat) returns (size: Size)
      requires Valid() && id < |schema| && schema[id].UnionDecl? && BusyAbove(schema, rank, states, rank[id]) && states[id].Busy?
      modifies this
      ensures Valid() && Kept(old(states), states)
      ensures Wf(UnfoldDecl(schema, rank, id)) && size == SizeOf(UnfoldDecl(schema, rank, id))
      ensures pending == (old(pending) && forall i :: 0 <= i < |schema[id].variants| ==> VariantFine(schema, rank, id, i))
      ensures unions[id].Some? && IsUnionLayout(schema, rank, id, unions[id].value)
      decreases 0, rank[id], 5
    {
      hide Built, Laid, DeclFine, Lowered, Ranked, SizeOf, Unfold, Wf, VariantFine, LargestVariant, VariantMax;
      BuiltOk(schema, rank, states, layouts, unions, errors, pending);
      UnionParts(schema, rank, id);
      var variants := schema[id].variants;
      ghost var vs := UnfoldVariants(schema, rank, id);
      var tag := TagWidth(|variants|);
      var laid: seq<Option<Layout>> := [];
      // The maximum so far, which an unbounded variant takes away for good.
      var largest := Some(0);
      NoVariants(vs);
      for i := 0 to |variants|
        invariant Valid() && Kept(old(states), states) && BusyAbove(schema, rank, states, rank[id])
        invariant largest == LargestVariant(vs[..i])
        invariant |laid| == i && forall j :: 0 <= j < i ==> laid[j] == VariantLayout(schema, rank, id, j)
        invariant pending == (old(pending) && forall j :: 0 <= j < i ==> VariantFine(schema, rank, id, j))
      {
        ghost var start := states;
        var most, layout := DefVariant(id, i);
        KeptTrans(old(states), start, states);
        KeptAbove(schema, rank, start, states, rank[id]);
        NextVariant(vs, i);
        largest := if largest.Some? && most.Some?
                   then Some(if largest.value < most.value then most.value else largest.value)
                   else None;
        laid := laid + [layout];
      }
      assert vs[..|vs|] == vs;
      size := Var(if largest.None? then None else Bound(tag + largest.value));
      UnionSizeIs(schema, rank, id);
      UnionKeeps(schema, rank, states, layouts, unions, errors, pending, id, UnionLayout(size, tag, laid));
      BuiltOk(schema, rank, states, layouts, unions, errors, pending);
      unions := unions[id := Some(UnionLayout(size, tag, laid))];
    }

    /** The most bytes of a variant's data, and the layout of its fields. */
    method DefVariant(id: nat, i: nat) returns (most: Option<nat>, layout: Option<Layout>)
      requires Valid() && id < |schema| && schema[id].UnionDecl? && BusyAbove(schema, rank, states, rank[id])
      requires i < |schema[id].variants|
      modifies this
      ensures Valid() && Kept(old(states), states)
      ensures VariantOkay(UnfoldVariants(schema, rank, id)[i]) && most == VariantMax(UnfoldVariants(schema, rank, id)[i])
      ensures layout == VariantLayout(schema, rank, id, i)
      ensures pending == (old(pending) && VariantFine(schema, rank, id, i))
      decreases 0, rank[id], 4
    {
      hide Built, Laid, DeclFine, Lowered, Ranked, SizeOf, Wf;
      BuiltOk(schema, rank, states, layouts, unions, errors, pending);
      UnionParts(schema, rank, id);
      UnfoldVariantWf(schema, rank, id, i);
      match schema[id].variants[i] {
        case SUnit => most, layout := Some(0), None;
        case SData(ty) =>
          VariantLevel(schema, rank, id, i);
          ghost var start := states;
          AboveLower(schema, rank, states, rank[id], Level(rank, ty));
          var found := FindOversized(ty);
          KeptAbove(schema, rank, start, states, Level(rank, ty));
          ghost var looked := states;
          if found.Some? {
            ReportKeeps(schema, rank, states, layouts, unions, errors, pending, LayoutError(id, Some(i), None));
            errors := errors + [LayoutError(id, Some(i), None)];
            pending := false;
          }
          var size := SizeOfType(ty);
          KeptTrans(start, looked, states);
          most, layout := size.Max(), None;
        case SInline(fields) =>
          InlineFields(schema, rank, id, i);
          var inner := LayOut(id, Some(i), fields, UnfoldInline(schema, rank, id, i));
          InlineSizeIs(schema, rank, id, i);
          most, layout := inner.size.Max(), Some(inner);
      }
    }

    /** Lays out declaration `id`, unless it is done. It is never reached while being laid out. */
    method Def(id: nat) returns (size: Size)
      requires Valid() && id < |schema| && !states[id].Busy?
      requires BusyAbove(schema, rank, states, if schema[id].HubDecl? then |schema| else rank[id] + 1)
      modifies this
      ensures Valid() && Kept(old(states), states) && pending == old(pending) && states[id] == Done(size)
      ensures Wf(UnfoldDecl(schema, rank, id)) && size == SizeOf(UnfoldDecl(schema, rank, id))
      decreases if schema[id].HubDecl? then 1 else 0, rank[id], 6
    {
      hide Built, Laid, DeclFine, Lowered, Ranked, SizeOf, Wf, UnfoldDecl;
      BuiltOk(schema, rank, states, layouts, unions, errors, pending);
      DeclParts(schema, rank, id);
      if states[id].Done? {
        DoneIs(schema, rank, states, layouts, unions, errors, pending, id);
        return states[id].size;
      }
      ghost var outer, fine := states, pending;
      BusyKeeps(schema, rank, states, layouts, unions, errors, pending, id);
      states := states[id := Busy];
      ghost var entered := states;
      if schema[id].HasFields() {
        size := DefObject(id);
      } else if schema[id].UnionDecl? {
        size := DefUnion(id);
      } else if schema[id].EnumDecl? {
        size := Fixed(schema[id].repr);
      } else {
        // Nothing to report: see `TargetFine`.
        AboveLower(schema, rank, states, rank[id], Level(rank, schema[id].target));
        size := SizeOfType(schema[id].target);
      }
      BuiltOk(schema, rank, states, layouts, unions, errors, pending);
      DoneLaid(schema, rank, id, size, layouts[id], unions[id]);
      DoneKeeps(schema, rank, states, layouts, unions, errors, pending, fine, id, size);
      DoneKept(outer, states, id, size);
      states := states[id := Done(size)];
      pending := fine;
    }

    /** A declaration with fields; the key of a hub kind is reported when no message holds it. */
    method DefObject(id: nat) returns (size: Size)
      requires Valid() && id < |schema| && schema[id].HasFields() && states[id].Busy?
      requires BusyAbove(schema, rank, states, if schema[id].HubDecl? then |schema| else rank[id])
      modifies this
      ensures Valid() && Kept(old(states), states)
      ensures Wf(UnfoldDecl(schema, rank, id)) && size == SizeOf(UnfoldDecl(schema, rank, id))
      ensures WfFields(UnfoldFields(schema, rank, id))
      ensures layouts[id] == Some(LayoutOf(Types.Members(UnfoldFields(schema, rank, id))))
      ensures pending == (old(pending) && DeclFine(schema, rank, id))
      decreases if schema[id].HubDecl? then 1 else 0, rank[id], 5
    {
      hide Built, Laid, Lowered, Ranked, SizeOf, Wf, UnfoldDecl, Oversized, FieldsFine;
      BuiltOk(schema, rank, states, layouts, unions, errors, pending);
      DeclParts(schema, rank, id);
      RankSmall(schema, rank, id);
      ghost var start := states;
      if schema[id].HubDecl? {
        LevelSmall(schema, rank, schema[id].key);
        AboveLower(schema, rank, states, |schema|, Level(rank, schema[id].key));
        var found := FindOversized(schema[id].key);
        KeptAbove(schema, rank, start, states, |schema|);
        if found.Some? {
          ReportKeeps(schema, rank, states, layouts, unions, errors, pending, LayoutError(id, None, None));
          errors := errors + [LayoutError(id, None, None)];
          pending := false;
        }
        AboveLower(schema, rank, states, |schema|, rank[id]);
      }
      ghost var keyed := states;
      ObjectFields(schema, rank, id);
      var layout := LayOut(id, None, schema[id].fields, UnfoldFields(schema, rank, id));
      KeptTrans(start, keyed, states);
      LayoutKeeps(schema, rank, states, layouts, unions, errors, pending, id, layout);
      BuiltOk(schema, rank, states, layouts, unions, errors, pending);
      layouts := layouts[id := Some(layout)];
      ObjectSizeIs(schema, rank, id);
      size := layout.size;
    }

    /** Lays out every declaration. */
    method LayOutAll()
      requires Valid() && pending && forall id :: 0 <= id < |schema| ==> states[id].Todo?
      modifies this
      ensures Valid() && forall id :: 0 <= id < |schema| ==> states[id].Done? && Laid(schema, rank, id, states[id].size, layouts[id], unions[id])
      ensures errors == [] <==> forall id :: 0 <= id < |schema| ==> DeclFine(schema, rank, id)
    {
      hide Laid, DeclFine, Lowered, Ranked, Built;
      BuiltOk(schema, rank, states, layouts, unions, errors, pending);
      for id := 0 to |schema|
        invariant Valid() && pending && |states| == |schema| == |rank|
        invariant forall j :: 0 <= j < |schema| ==> !states[j].Busy? && (j < id ==> states[j].Done?)
      {
        var size := Def(id);
      }
      AllDone(schema, rank, states, layouts, unions, errors);
    }
  }

  // ----- what each step keeps

  /** Once every declaration is done, there are no errors exactly when all are fine. */
  lemma {:induction false} AllDone(s: Schema, rank: seq<nat>, states: seq<State>, layouts: seq<Option<Layout>>,
      unions: seq<Option<UnionLayout>>, errors: seq<LayoutError>)
    requires Built(s, rank, states, layouts, unions, errors, true) && forall id :: 0 <= id < |s| ==> states[id].Done?
    ensures Lowered(s) && Ranked(s, rank) && |layouts| == |unions| == |s|
    ensures forall id :: 0 <= id < |s| ==> Laid(s, rank, id, states[id].size, layouts[id], unions[id])
    ensures errors == [] <==> forall id :: 0 <= id < |s| ==> DeclFine(s, rank, id)
  {
    hide Laid, DeclFine, Lowered, Ranked;
  }

  /** Which slot a field takes, before offsets are known. */
  function SlotFor(optional: bool, isBool: bool, size: Size, bits: nat, vars: nat): Slot {
    if isBool then if optional then OptionalBitSlot(bits, bits + 1) else BitSlot(bits)
    else if size.Fixed? then if optional then OptionalSlot(bits) else AtSlot(0)
    else VarSlot(vars, if optional then Some(bits) else None)
  }

  function BitsFor(optional: bool, slot: Slot): nat {
    (if optional then 1 else 0) + if slot.BitSlot? || slot.OptionalBitSlot? then 1 else 0
  }

  lemma {:induction false} NextSlot(ms: seq<Member>, i: nat, isBool: bool, bits: nat, vars: nat)
    requires i < |ms| && ms[i].flag == isBool && bits == Bits(ms[..i]) && vars == Vars(ms[..i])
    ensures var slot := SlotFor(ms[i].optional, isBool, ms[i].size, bits, vars);
            && slot == FirstSlot(ms, i)
            && bits + BitsFor(ms[i].optional, slot) == Bits(ms[..i + 1])
            && (if slot.VarSlot? then vars + 1 else vars) == Vars(ms[..i + 1])
  {
    PrefixStep(ms, i);
  }

  lemma {:induction false} NoMembers(ms: seq<Member>)
    ensures Bits(ms[..0]) == 0 && Vars(ms[..0]) == 0
  {
  }

  lemma {:induction false} WfFieldsOf(s: Schema, rank: seq<nat>, n: nat, fields: seq<SField>, fs: seq<Field>)
    requires Lowered(s) && Ranked(s, rank) && AreFields(s, rank, n, fields, fs)
    ensures WfFields(fs) && |Types.Members(fs)| == |fields|
    ensures forall i :: 0 <= i < |fields| ==> Types.Members(fs)[i] == Member(fields[i].optional, IsFlag(fs[i].ty), SizeOf(fs[i].ty))
  {
  }

  lemma {:induction false} FlagsFixed(fs: seq<Field>)
    requires WfFields(fs)
    ensures forall i :: 0 <= i < |fs| && Types.Members(fs)[i].flag ==> Types.Members(fs)[i].size.Fixed?
  {
    forall i | 0 <= i < |fs| && IsFlag(fs[i].ty) ensures SizeOf(fs[i].ty).Fixed? {
      FlagFixedSize(fs[i].ty);
    }
  }

  lemma {:induction false} AboveLower(s: Schema, rank: seq<nat>, states: seq<State>, n: nat, m: nat)
    requires BusyAbove(s, rank, states, n) && m <= n
    ensures BusyAbove(s, rank, states, m)
  {
  }

  lemma {:induction false} RankSmall(s: Schema, rank: seq<nat>, id: nat)
    requires Ranked(s, rank) && id < |s|
    ensures rank[id] < |s|
  {
  }

  lemma {:induction false} ReportKeeps(s: Schema, rank: seq<nat>, states: seq<State>, layouts: seq<Option<Layout>>,
      unions: seq<Option<UnionLayout>>, errors: seq<LayoutError>, pending: bool, e: LayoutError)
    requires Built(s, rank, states, layouts, unions, errors, pending)
    ensures Built(s, rank, states, layouts, unions, errors + [e], false)
  {
  }

  lemma {:induction false} BusyKeeps(s: Schema, rank: seq<nat>, states: seq<State>, layouts: seq<Option<Layout>>,
      unions: seq<Option<UnionLayout>>, errors: seq<LayoutError>, pending: bool, id: nat)
    requires Built(s, rank, states, layouts, unions, errors, pending) && id < |s| && states[id].Todo?
    requires BusyAbove(s, rank, states, if s[id].HubDecl? then |s| else rank[id] + 1)
    ensures Built(s, rank, states[id := Busy], layouts, unions, errors, pending)
    ensures BusyAbove(s, rank, states[id := Busy], if s[id].HubDecl? then |s| else rank[id])
  {
    var after := states[id := Busy];
    assert forall j :: 0 <= j < |s| && after[j].Done? ==> states[j].Done?;
    assert forall j :: 0 <= j < |s| && states[j].Done? ==> after[j].Done?;
  }

  lemma {:induction false} LayoutKeeps(s: Schema, rank: seq<nat>, states: seq<State>, layouts: seq<Option<Layout>>,
      unions: seq<Option<UnionLayout>>, errors: seq<LayoutError>, pending: bool, id: nat, layout: Layout)
    requires Built(s, rank, states, layouts, unions, errors, pending) && id < |s| && states[id].Busy?
    ensures Built(s, rank, states, layouts[id := Some(layout)], unions, errors, pending)
  {
  }

  lemma {:induction false} UnionKeeps(s: Schema, rank: seq<nat>, states: seq<State>, layouts: seq<Option<Layout>>,
      unions: seq<Option<UnionLayout>>, errors: seq<LayoutError>, pending: bool, id: nat, layout: UnionLayout)
    requires Built(s, rank, states, layouts, unions, errors, pending) && id < |s| && states[id].Busy?
    ensures Built(s, rank, states, layouts, unions[id := Some(layout)], errors, pending)
  {
  }

  lemma {:induction false} DoneIs(s: Schema, rank: seq<nat>, states: seq<State>, layouts: seq<Option<Layout>>,
      unions: seq<Option<UnionLayout>>, errors: seq<LayoutError>, pending: bool, id: nat)
    requires Built(s, rank, states, layouts, unions, errors, pending) && id < |s| && states[id].Done?
    ensures Wf(UnfoldDecl(s, rank, id)) && states[id].size == SizeOf(UnfoldDecl(s, rank, id))
  {
    UnfoldDeclWf(s, rank, id);
    assert Laid(s, rank, id, states[id].size, layouts[id], unions[id]);
  }

  lemma {:induction false} BuiltOk(s: Schema, rank: seq<nat>, states: seq<State>, layouts: seq<Option<Layout>>,
      unions: seq<Option<UnionLayout>>, errors: seq<LayoutError>, pending: bool)
    requires Built(s, rank, states, layouts, unions, errors, pending)
    ensures Lowered(s) && Ranked(s, rank) && |rank| == |states| == |layouts| == |unions| == |s|
  {
  }

  lemma {:induction false} DoneKeeps(s: Schema, rank: seq<nat>, states: seq<State>, layouts: seq<Option<Layout>>,
      unions: seq<Option<UnionLayout>>, errors: seq<LayoutError>, pending: bool, fine: bool, id: nat, size: Size)
    requires Built(s, rank, states, layouts, unions, errors, pending) && id < |s| && states[id].Busy?
    requires pending == (fine && DeclFine(s, rank, id)) && Laid(s, rank, id, size, layouts[id], unions[id])
    ensures Built(s, rank, states[id := Done(size)], layouts, unions, errors, fine)
  {
    hide Laid, DeclFine, Lowered, Ranked;
    var after := states[id := Done(size)];
    assert forall j :: 0 <= j < |s| && j != id ==> after[j] == states[j];
    assert (forall j :: 0 <= j < |s| && after[j].Done? ==> DeclFine(s, rank, j)) <==>
           DeclFine(s, rank, id) && forall j :: 0 <= j < |s| && states[j].Done? ==> DeclFine(s, rank, j) by {
      assert after[id].Done?;
    }
  }

  lemma {:induction false} DoneKept(outer: seq<State>, states: seq<State>, id: nat, size: Size)
    requires id < |outer| && outer[id].Todo? && Kept(outer[id := Busy], states)
    ensures Kept(outer, states[id := Done(size)])
  {
  }

  lemma {:induction false} DoneLaid(s: Schema, rank: seq<nat>, id: nat, size: Size, layout: Option<Layout>, union: Option<UnionLayout>)
    requires Lowered(s) && Ranked(s, rank) && id < |s| && Wf(UnfoldDecl(s, rank, id)) && size == SizeOf(UnfoldDecl(s, rank, id))
    requires s[id].HasFields() ==>
               WfFields(UnfoldFields(s, rank, id)) && layout == Some(LayoutOf(Types.Members(UnfoldFields(s, rank, id))))
    requires s[id].UnionDecl? ==> union.Some? && IsUnionLayout(s, rank, id, union.value)
    ensures Laid(s, rank, id, size, layout, union)
    ensures s[id].EnumDecl? || s[id].TypeDecl? ==> DeclFine(s, rank, id)
    ensures s[id].UnionDecl? ==>
              (DeclFine(s, rank, id) <==> forall i :: 0 <= i < |s[id].variants| ==> VariantFine(s, rank, id, i))
  {
    hide SizeOf;
  }

  // ----- what declarations are made of

  lemma {:induction false} DeclParts(s: Schema, rank: seq<nat>, id: nat)
    requires Lowered(s) && Ranked(s, rank) && id < |s|
    ensures Wf(UnfoldDecl(s, rank, id))
    ensures s[id].EnumDecl? ==> SizeOf(UnfoldDecl(s, rank, id)) == Fixed(s[id].repr)
    ensures s[id].HubDecl? ==> TypeOk(s, s[id].key)
    ensures s[id].TypeDecl? ==>
              && TypeOk(s, s[id].target) && Level(rank, s[id].target) <= rank[id] && Wf(Unfold(s, rank, s[id].target))
              && SizeOf(UnfoldDecl(s, rank, id)) == SizeOf(Unfold(s, rank, s[id].target))
  {
    UnfoldDeclWf(s, rank, id);
    assert DeclOk(s, s[id]);
    if s[id].TypeDecl? {
      TargetLevel(s, rank, id);
      UnfoldWf(s, rank, s[id].target);
    }
  }

  lemma {:induction false} ObjectSizeIs(s: Schema, rank: seq<nat>, id: nat)
    requires Lowered(s) && Ranked(s, rank) && id < |s| && s[id].HasFields()
    ensures Wf(UnfoldDecl(s, rank, id)) && WfFields(UnfoldFields(s, rank, id))
    ensures SizeOf(UnfoldDecl(s, rank, id)) == LayoutOf(Types.Members(UnfoldFields(s, rank, id))).size
  {
    UnfoldDeclWf(s, rank, id);
    UnfoldFieldsWf(s, rank, id);
  }

  lemma {:induction false} UnionParts(s: Schema, rank: seq<nat>, id: nat)
    requires Lowered(s) && Ranked(s, rank) && id < |s| && s[id].UnionDecl?
    ensures Wf(UnfoldDecl(s, rank, id)) && UnfoldDecl(s, rank, id) == Union(UnfoldVariants(s, rank, id))
    ensures var vs := UnfoldVariants(s, rank, id); forall i :: 0 <= i < |vs| && vs[i].Data? ==> Wf(vs[i].ty)
  {
    UnfoldDeclWf(s, rank, id);
  }

  lemma {:induction false} UnionSizeIs(s: Schema, rank: seq<nat>, id: nat)
    requires Lowered(s) && Ranked(s, rank) && id < |s| && s[id].UnionDecl?
    ensures Wf(UnfoldDecl(s, rank, id))
    ensures var vs := UnfoldVariants(s, rank, id); forall i :: 0 <= i < |vs| && vs[i].Data? ==> Wf(vs[i].ty)
    ensures var largest := LargestVariant(UnfoldVariants(s, rank, id));
            SizeOf(UnfoldDecl(s, rank, id)) == Var(if largest.None? then None else Bound(TagWidth(|s[id].variants|) + largest.value))
  {
    UnionParts(s, rank, id);
  }

  lemma {:induction false} InlineSizeIs(s: Schema, rank: seq<nat>, id: nat, i: nat)
    requires Lowered(s) && Ranked(s, rank) && id < |s| && s[id].UnionDecl? && i < |s[id].variants| && s[id].variants[i].SInline?
    ensures WfFields(UnfoldInline(s, rank, id, i)) && VariantOkay(UnfoldVariants(s, rank, id)[i])
    ensures VariantMax(UnfoldVariants(s, rank, id)[i]) == LayoutOf(Types.Members(UnfoldInline(s, rank, id, i))).size.Max()
  {
    UnionParts(s, rank, id);
    UnfoldInlineWf(s, rank, id, i);
  }

  lemma {:induction false} NoVariants(vs: seq<Variant>)
    ensures LargestVariant(vs[..0]) == Some(0)
  {
  }

  lemma {:induction false} NextVariant(vs: seq<Variant>, i: nat)
    requires i < |vs| && forall j :: 0 <= j < |vs| && vs[j].Data? ==> Wf(vs[j].ty)
    ensures var rest, last := LargestVariant(vs[..i]), VariantMax(vs[i]);
            LargestVariant(vs[..i + 1]) ==
              if rest.Some? && last.Some? then Some(if rest.value < last.value then last.value else rest.value) else None
  {
    assert vs[..i + 1][..i] == vs[..i];
  }
}
