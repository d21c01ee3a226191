/**
 Which types are fixed-size, decided on schemas that may still be recursive, and the scalar a
 `type` stands for.
 */
module FixedSizes {
  import opened Wrappers
  import opened Layouts
  import opened Scalars
  import opened Types
  import opened Schemas
  import opened Cycles

  // ----- unfolded types are well formed

  lemma {:induction false} UnfoldWf(s: Schema, rank: seq<nat>, ty: SType)
    requires Lowered(s) && Ranked(s, rank) && TypeOk(s, ty)
    ensures Wf(Unfold(s, rank, ty)) && !Unfold(s, rank, ty).Pair?
    decreases Level(rank, ty), 0, ty
  {
    match ty {
      case SScalar(_) =>
      case SBlob(_, _) =>
      case SArray(item, _) => UnfoldWf(s, rank, item);
      case SList(_, item, _) => UnfoldWf(s, rank, item);
      case SMap(key, value, _) => UnfoldWf(s, rank, key); UnfoldWf(s, rank, value);
      case SNamed(id) => UnfoldDeclWf(s, rank, id);
    }
  }

  lemma {:induction false} UnfoldDeclWf(s: Schema, rank: seq<nat>, id: nat)
    requires Lowered(s) && Ranked(s, rank) && id < |s|
    ensures Wf(UnfoldDecl(s, rank, id)) && !UnfoldDecl(s, rank, id).Pair?
    decreases rank[id], 2
  {
    assert DeclOk(s, s[id]);
    if s[id].HasFields() {
      UnfoldFieldsWf(s, rank, id);
    } else if s[id].TypeDecl? {
      TargetLevel(s, rank, id);
      UnfoldWf(s, rank, s[id].target);
    } else if s[id].UnionDecl? {
      var variants := UnfoldVariants(s, rank, id);
      forall i | 0 <= i < |variants| && variants[i].Data? ensures Wf(variants[i].ty) && !variants[i].ty.Pair? {
        UnfoldVariantWf(s, rank, id, i);
      }
    }
  }

  lemma {:induction false} UnfoldFieldsWf(s: Schema, rank: seq<nat>, id: nat)
    requires Lowered(s) && Ranked(s, rank) && id < |s| && s[id].HasFields()
    ensures Wf(Struct(UnfoldFields(s, rank, id))) && WfFields(UnfoldFields(s, rank, id))
    decreases rank[id], 0
  {
    var fields := UnfoldFields(s, rank, id);
    forall i | 0 <= i < |fields| ensures Wf(fields[i].ty) && !fields[i].ty.Pair? {
      FieldLevel(s, rank, id, i);
      UnfoldWf(s, rank, s[id].fields[i].ty);
    }
  }

  lemma {:induction false} UnfoldVariantWf(s: Schema, rank: seq<nat>, id: nat, i: nat)
    requires Lowered(s) && Ranked(s, rank) && id < |s| && s[id].UnionDecl? && i < |s[id].variants|
    ensures var variant := UnfoldVariants(s, rank, id)[i]; variant.Data? ==> Wf(variant.ty) && !variant.ty.Pair?
    decreases rank[id], 1
  {
    match s[id].variants[i] {
      case SUnit =>
      case SData(ty) =>
        VariantLevel(s, rank, id, i);
        UnfoldWf(s, rank, ty);
      case SInline(_) => UnfoldInlineWf(s, rank, id, i);
    }
  }

  lemma {:induction false} UnfoldInlineWf(s: Schema, rank: seq<nat>, id: nat, i: nat)
    requires Lowered(s) && Ranked(s, rank) && id < |s| && s[id].UnionDecl? && i < |s[id].variants| && s[id].variants[i].SInline?
    ensures Wf(Struct(UnfoldInline(s, rank, id, i))) && WfFields(UnfoldInline(s, rank, id, i))
    decreases rank[id], 0
  {
    var fields := UnfoldInline(s, rank, id, i);
    forall j | 0 <= j < |fields| ensures Wf(fields[j].ty) && !fields[j].ty.Pair? {
      InlineLevel(s, rank, id, i, j);
      UnfoldWf(s, rank, s[id].variants[i].fields[j].ty);
    }
  }

  // ----- the scalar a `type` stands for

  /** Names lead to declarations of the schema; nothing else is asked before cycles are ruled out. */
  predicate Closed(s: Schema) {
    forall id :: 0 <= id < |s| ==> RefsIn(s, DeclRefs(s[id]))
  }

  predicate RefsIn(s: Schema, refs: seq<nat>) {
    forall k :: 0 <= k < |refs| ==> refs[k] < |s|
  }

  predicate NamesType(s: Schema, ty: SType) {
    ty.SNamed? && ty.id < |s| && s[ty.id].TypeDecl?
  }

  /** What `ty` stands for after following at most `n` names. */
  function Followed(s: Schema, ty: SType, n: nat): SType
    decreases n
  {
    if n > 0 && NamesType(s, ty) then Followed(s, s[ty.id].target, n - 1) else ty
  }

  /** `resolved`: follows names of `type`s, no more than could be distinct. */
  method Resolve(s: Schema, ty: SType) returns (r: SType)
    ensures r == Followed(s, ty, |s| + 1)
  {
    r := ty;
    for n := 0 to |s| + 1
      invariant Followed(s, r, |s| + 1 - n) == Followed(s, ty, |s| + 1)
    {
      if !NamesType(s, r) {
        break;
      }
      r := s[r.id].target;
    }
  }

  lemma {:induction false} LevelSmall(s: Schema, rank: seq<nat>, ty: SType)
    requires Ranked(s, rank) && TypeOk(s, ty)
    ensures Level(rank, ty) <= |s|
  {
    match ty {
      case SArray(item, _) => LevelSmall(s, rank, item);
      case SList(_, item, _) => LevelSmall(s, rank, item);
      case SMap(key, value, _) => LevelSmall(s, rank, key); LevelSmall(s, rank, value);
      case _ =>
    }
  }

  /** Without recursive types, following as many names as the type is high reaches what is no `type`. */
  lemma {:induction false} FollowedScalar(s: Schema, rank: seq<nat>, ty: SType, n: nat)
    requires Lowered(s) && Ranked(s, rank) && TypeOk(s, ty) && Level(rank, ty) <= n
    ensures !NamesType(s, Followed(s, ty, n))
    ensures Followed(s, ty, n) == SScalar(Bool) <==> IsFlag(Unfold(s, rank, ty))
    decreases n
  {
    if NamesType(s, ty) {
      TargetLevel(s, rank, ty.id);
      FollowedScalar(s, rank, s[ty.id].target, n - 1);
    }
  }

  /** The bounded loop always reaches the scalar: a field is a bit exactly when it resolves to `bool`. */
  lemma {:induction false} ResolvedIsScalar(s: Schema, rank: seq<nat>, ty: SType)
    requires Lowered(s) && Ranked(s, rank) && TypeOk(s, ty)
    ensures !NamesType(s, Followed(s, ty, |s| + 1))
    ensures Followed(s, ty, |s| + 1) == SScalar(Bool) <==> IsFlag(Unfold(s, rank, ty))
  {
    LevelSmall(s, rank, ty);
    FollowedScalar(s, rank, ty, |s| + 1);
  }

  // ----- fixed-size types

  ghost predicate VisitingOk(s: Schema, visiting: seq<nat>) {
    Distinct(visiting) && forall k :: 0 <= k < |visiting| ==> visiting[k] < |s|
  }

  lemma {:induction false} VisitingGrows(s: Schema, visiting: seq<nat>, id: nat)
    requires VisitingOk(s, visiting) && id < |s| && id !in visiting
    ensures VisitingOk(s, visiting + [id]) && |visiting| < |s|
  {
    DistinctBounded(visiting + [id], |s|);
  }

  lemma {:induction false} FieldsIn(s: Schema, fields: seq<SField>, i: nat)
    requires RefsIn(s, FieldRefs(fields)) && i < |fields|
    ensures RefsIn(s, Refs(fields[i].ty))
  {
    var front, last := fields[..|fields| - 1], fields[|fields| - 1];
    var refs := FieldRefs(front) + Refs(last.ty);
    if i < |front| {
      forall k | 0 <= k < |FieldRefs(front)| ensures FieldRefs(front)[k] < |s| {
        assert refs[k] == FieldRefs(front)[k];
      }
      FieldsIn(s, front, i);
    } else {
      forall k | 0 <= k < |Refs(last.ty)| ensures Refs(last.ty)[k] < |s| {
        assert refs[|FieldRefs(front)| + k] == Refs(last.ty)[k];
      }
    }
  }

  /** A declaration holding fields that a type may name, or a hub kind. */
  predicate HoldsFields(d: Decl) {
    d.StructDecl? || d.HubDecl?
  }

  lemma {:induction false} ClosedField(s: Schema, id: nat, i: nat)
    requires Closed(s) && id < |s| && HoldsFields(s[id]) && i < |s[id].fields|
    ensures RefsIn(s, Refs(s[id].fields[i].ty))
  {
    assert RefsIn(s, DeclRefs(s[id]));
    FieldsIn(s, s[id].fields, i);
  }

  lemma {:induction false} ClosedTarget(s: Schema, id: nat)
    requires Closed(s) && id < |s| && s[id].TypeDecl?
    ensures RefsIn(s, Refs(s[id].target))
  {
  }

  /** `is_fixed_in`, which terminates on every schema: a name being visited counts as fixed-size. */
  ghost predicate FixedIn(s: Schema, ty: SType, visiting: seq<nat>)
    requires Closed(s) && RefsIn(s, Refs(ty)) && VisitingOk(s, visiting)
    decreases |s| - |visiting|, ty
  {
    match ty
    case SScalar(_) => true
    case SBlob(_, lengths) => lengths.FixedLength().Some?
    case SArray(item, _) => FixedIn(s, item, visiting)
    case SList(_, _, _) => false
    case SMap(_, _, _) => false
    case SNamed(id) =>
      assert Refs(ty)[0] == id;
      (match s[id]
       case EnumDecl(_, _) => true
       case TypeDecl(target) =>
         id in visiting || (VisitingGrows(s, visiting, id); ClosedTarget(s, id); FixedIn(s, target, visiting + [id]))
       case StructDecl(fields) => id in visiting || (VisitingGrows(s, visiting, id); FieldsFixed(s, id, visiting + [id], |fields|))
       case HubDecl(_, fields) => id in visiting || (VisitingGrows(s, visiting, id); FieldsFixed(s, id, visiting + [id], |fields|))
       case _ => false)
  }

  ghost predicate FieldsFixed(s: Schema, id: nat, visiting: seq<nat>, n: nat)
    requires Closed(s) && id < |s| && HoldsFields(s[id]) && n <= |s[id].fields| && VisitingOk(s, visiting)
    requires |visiting| <= |s|
    decreases |s| - |visiting|
  {
    forall i :: 0 <= i < n ==>
      (ClosedField(s, id, i);
       var field := s[id].fields[i];
       && (field.optional ==> Followed(s, field.ty, |s| + 1) == SScalar(Bool))
       && FixedIn(s, field.ty, visiting))
  }

  class FixedChecker {
    const defs: Schema
    /** The names being resolved, innermost last. */
    var visiting: seq<nat>

    ghost predicate Valid()
      reads this
    {
      Closed(defs) && VisitingOk(defs, visiting)
    }

    constructor (defs: Schema)
      requires Closed(defs)
      ensures Valid() && this.defs == defs && visiting == []
    {
      this.defs := defs;
      this.visiting := [];
    }

    method IsFixedIn(ty: SType) returns (fixed: bool)
      requires Valid() && RefsIn(defs, Refs(ty))
      modifies this
      ensures Valid() && visiting == old(visiting)
      ensures fixed <==> FixedIn(defs, ty, old(visiting))
      decreases |defs| - |visiting|, 0, ty
    {
      match ty {
        case SScalar(_) => fixed := true;
        case SBlob(_, lengths) => fixed := lengths.FixedLength().Some?;
        case SArray(item, _) => fixed := IsFixedIn(item);
        case SList(_, _, _) => fixed := false;
        case SMap(_, _, _) => fixed := false;
        case SNamed(id) =>
          assert Refs(ty)[0] == id;
          if defs[id].EnumDecl? {
            fixed := true;
          } else if defs[id].MessageDecl? || defs[id].UnionDecl? {
            fixed := false;
          } else if id in visiting {
            fixed := true;
          } else {
            VisitingGrows(defs, visiting, id);
            ghost var outer := visiting;
            visiting := visiting + [id];
            if defs[id].TypeDecl? {
              ClosedTarget(defs, id);
              fixed := IsFixedIn(defs[id].target);
            } else {
              fixed := AreFixed(id);
            }
            visiting := visiting[..|visiting| - 1];
            assert visiting == outer;
          }
      }
    }

    method AreFixed(id: nat) returns (fixed: bool)
      requires Valid() && id < |defs| && HoldsFields(defs[id]) && |visiting| <= |defs|
      modifies this
      ensures Valid() && visiting == old(visiting)
      ensures fixed <==> FieldsFixed(defs, id, old(visiting), |defs[id].fields|)
      decreases |defs| - |visiting|, 1
    {
      var fields := defs[id].fields;
      for i := 0 to |fields|
        invariant Valid() && visiting == old(visiting)
        invariant FieldsFixed(defs, id, visiting, i)
      {
        ClosedField(defs, id, i);
        var resolved := Resolve(defs, fields[i].ty);
        if fields[i].optional && resolved != SScalar(Bool) {
          return false;
        }
        fixed := IsFixedIn(fields[i].ty);
        if !fixed {
          return;
        }
      }
      return true;
    }
  }

  // ----- what is decided is the size's form

  /** Nothing being visited is below `n`. */
  ghost predicate VisitingAbove(rank: seq<nat>, visiting: seq<nat>, n: nat) {
    forall k :: 0 <= k < |visiting| ==> visiting[k] < |rank| && rank[visiting[k]] >= n
  }

  lemma {:induction false} LoweredClosed(s: Schema)
    requires Lowered(s)
    ensures Closed(s)
  {
    forall id | 0 <= id < |s| ensures RefsIn(s, DeclRefs(s[id])) {
      DeclRefsOk(s, id);
    }
  }

  /** Without recursive types, a type is decided fixed-size exactly when its size is `Fixed`. */
  lemma {:induction false} FixedIsSize(s: Schema, rank: seq<nat>, ty: SType, visiting: seq<nat>)
    requires Lowered(s) && Ranked(s, rank) && TypeOk(s, ty) && VisitingOk(s, visiting)
    requires VisitingAbove(rank, visiting, Level(rank, ty))
    ensures Closed(s) && RefsIn(s, Refs(ty)) && Wf(Unfold(s, rank, ty))
    ensures FixedIn(s, ty, visiting) <==> SizeOf(Unfold(s, rank, ty)).Fixed?
    decreases Level(rank, ty), 0, ty
  {
    LoweredClosed(s);
    TypeRefsOk(s, ty);
    UnfoldWf(s, rank, ty);
    match ty {
      case SScalar(_) =>
      case SBlob(_, _) =>
      case SArray(item, _) => FixedIsSize(s, rank, item, visiting);
      case SList(_, _, _) =>
      case SMap(_, _, _) =>
      case SNamed(id) =>
        assert id !in visiting;
        VisitingGrows(s, visiting, id);
        if s[id].TypeDecl? {
          TargetLevel(s, rank, id);
          FixedIsSize(s, rank, s[id].target, visiting + [id]);
        } else if s[id].StructDecl? {
          StructFixedIsSize(s, rank, id, visiting + [id]);
        }
    }
  }

  lemma {:induction false} StructFixedIsSize(s: Schema, rank: seq<nat>, id: nat, visiting: seq<nat>)
    requires Lowered(s) && Ranked(s, rank) && id < |s| && HoldsFields(s[id]) && VisitingOk(s, visiting) && |visiting| <= |s|
    requires VisitingAbove(rank, visiting, rank[id])
    ensures Closed(s) && Wf(UnfoldDecl(s, rank, id))
    ensures FieldsFixed(s, id, visiting, |s[id].fields|) <==> SizeOf(UnfoldDecl(s, rank, id)).Fixed?
    decreases rank[id], 1
  {
    hide Unfold, SizeOf, FixedIn, ObjectSize, Lowered, Ranked;
    LoweredClosed(s);
    UnfoldDeclWf(s, rank, id);
    UnfoldFieldsWf(s, rank, id);
    var fields := UnfoldFields(s, rank, id);
    var ms := Types.Members(fields);
    StructSizeIs(s, rank, id);
    forall i | 0 <= i < |fields|
      ensures RefsIn(s, Refs(s[id].fields[i].ty))
      ensures !(ms[i].IsOptional() || ms[i].IsVar()) <==>
                && (s[id].fields[i].optional ==> Followed(s, s[id].fields[i].ty, |s| + 1) == SScalar(Bool))
                && FixedIn(s, s[id].fields[i].ty, visiting)
    {
      FieldFixedIsSize(s, rank, id, i, visiting);
    }
  }

  lemma {:induction false} StructSizeIs(s: Schema, rank: seq<nat>, id: nat)
    requires Lowered(s) && Ranked(s, rank) && id < |s| && s[id].HasFields()
    requires Wf(UnfoldDecl(s, rank, id)) && WfFields(UnfoldFields(s, rank, id))
    ensures SizeOf(UnfoldDecl(s, rank, id)) == ObjectSize(Types.Members(UnfoldFields(s, rank, id)))
    ensures SizeOf(UnfoldDecl(s, rank, id)).Fixed? <==> !Varies(Types.Members(UnfoldFields(s, rank, id)))
  {
  }

  lemma {:induction false} FieldFixedIsSize(s: Schema, rank: seq<nat>, id: nat, i: nat, visiting: seq<nat>)
    requires Lowered(s) && Ranked(s, rank) && id < |s| && HoldsFields(s[id]) && VisitingOk(s, visiting)
    requires VisitingAbove(rank, visiting, rank[id]) && i < |s[id].fields|
    ensures Closed(s) && RefsIn(s, Refs(s[id].fields[i].ty)) && WfFields(UnfoldFields(s, rank, id))
    ensures var m := Types.Members(UnfoldFields(s, rank, id))[i];
            !(m.IsOptional() || m.IsVar()) <==>
              && (s[id].fields[i].optional ==> Followed(s, s[id].fields[i].ty, |s| + 1) == SScalar(Bool))
              && FixedIn(s, s[id].fields[i].ty, visiting)
    decreases rank[id], 0
  {
    FieldLevel(s, rank, id, i);
    UnfoldFieldsWf(s, rank, id);
    var ty := s[id].fields[i].ty;
    FixedIsSize(s, rank, ty, visiting);
    ResolvedIsScalar(s, rank, ty);
    if IsFlag(Unfold(s, rank, ty)) {
      FlagFixedSize(Unfold(s, rank, ty));
    }
  }

  lemma {:induction false} FlagFixedSize(ty: Type)
    requires Wf(ty) && IsFlag(ty)
    ensures SizeOf(ty).Fixed?
  {
    if ty.Newtype? {
      FlagFixedSize(ty.target);
    }
  }

  // ----- what is decided, on recursive schemas too

  /** A type, or the items of the arrays it is. */
  function Core(ty: SType): SType {
    if ty.SArray? then Core(ty.item) else ty
  }

  /** A type that varies in size by itself. */
  predicate VariesItself(ty: SType) {
    ty.SList? || ty.SMap? || (ty.SBlob? && (ty.lengths.min.None? || ty.lengths.min != ty.lengths.max))
  }

  /** `ty` is kept where declaration `d` is: as a field, or as what a `type` stands for. */
  predicate Keeps(d: Decl, ty: SType) {
    match d
    case TypeDecl(target) => Core(target) == ty
    case StructDecl(fields) => exists i :: 0 <= i < |fields| && Core(fields[i].ty) == ty
    case HubDecl(_, fields) => exists i :: 0 <= i < |fields| && Core(fields[i].ty) == ty
    case _ => false
  }

  /** A declaration that varies in size by itself: a union or a message, or one with a field that varies or may be absent. */
  ghost predicate DeclVaries(s: Schema, d: Decl) {
    || d.UnionDecl? || d.MessageDecl?
    || (exists ty :: Keeps(d, ty) && VariesItself(ty))
    || (HoldsFields(d) && exists i :: 0 <= i < |d.fields| && d.fields[i].optional && Followed(s, d.fields[i].ty, |s| + 1) != SScalar(Bool))
  }

  /** From `id`, through declarations kept in place and none of `visiting`, one that varies by itself. */
  ghost predicate VariesBy(s: Schema, id: nat, visiting: seq<nat>, walk: seq<nat>) {
    && walk != [] && walk[0] == id && NoneIn(walk, visiting)
    && (forall k :: 0 <= k < |walk| - 1 ==> walk[k] < |s| && Keeps(s[walk[k]], SNamed(walk[k + 1])))
    && walk[|walk| - 1] < |s| && DeclVaries(s, s[walk[|walk| - 1]])
  }

  ghost predicate NameVaries(s: Schema, id: nat, visiting: seq<nat>) {
    exists walk :: VariesBy(s, id, visiting, walk)
  }

  ghost predicate CoreVaries(s: Schema, ty: SType, visiting: seq<nat>) {
    VariesItself(Core(ty)) || (Core(ty).SNamed? && NameVaries(s, Core(ty).id, visiting))
  }

  /** Only what may lead further is being visited. */
  ghost predicate Passes(s: Schema, visiting: seq<nat>) {
    forall k :: 0 <= k < |visiting| ==> visiting[k] < |s| && (HoldsFields(s[visiting[k]]) || s[visiting[k]].TypeDecl?)
  }

  lemma {:induction false} WalkPasses(s: Schema, id: nat, next: nat, visiting: seq<nat>)
    requires id < |s| && id !in visiting && Keeps(s[id], SNamed(next)) && NameVaries(s, next, visiting + [id])
    ensures NameVaries(s, id, visiting)
  {
    hide Keeps, DeclVaries;
    var walk :| VariesBy(s, next, visiting + [id], walk);
    var longer := [id] + walk;
    forall k | 0 <= k < |longer| ensures longer[k] !in visiting {
      assert k > 0 ==> walk[k - 1] !in visiting + [id];
    }
    assert VariesBy(s, id, visiting, longer);
  }

  /** A walk goes on from where it last passes through `id`. */
  lemma {:induction false} LastPass(s: Schema, id: nat, visiting: seq<nat>, walk: seq<nat>)
    requires VariesBy(s, id, visiting, walk)
    ensures id < |s| && (DeclVaries(s, s[id]) || exists next :: Keeps(s[id], SNamed(next)) && NameVaries(s, next, visiting + [id]))
    decreases |walk|
  {
    hide Keeps, DeclVaries;
    if |walk| > 1 {
      if k :| 1 <= k < |walk| && walk[k] == id {
        VariesFrom(s, id, visiting, walk, k);
        LastPass(s, id, visiting, walk[k..]);
      } else {
        VariesFrom(s, id, visiting, walk, 1);
        NoneInMore(walk[1..], visiting, id);
        assert VariesBy(s, walk[1], visiting + [id], walk[1..]);
        assert Keeps(s[id], SNamed(walk[1]));
      }
    }
  }

  lemma {:induction false} VariesFrom(s: Schema, id: nat, visiting: seq<nat>, walk: seq<nat>, k: nat)
    requires VariesBy(s, id, visiting, walk) && k < |walk|
    ensures VariesBy(s, walk[k], visiting, walk[k..])
  {
    hide Keeps, DeclVaries;
  }

  lemma {:induction false} NoneInMore(walk: seq<nat>, ids: seq<nat>, id: nat)
    requires NoneIn(walk, ids) && forall k :: 0 <= k < |walk| ==> walk[k] != id
    ensures NoneIn(walk, ids + [id])
  {
  }

  /** Following the declarations in place decides whether any of them varies, recursive or not. */
  lemma {:induction false} FixedExactly(s: Schema, ty: SType, visiting: seq<nat>)
    requires Closed(s) && RefsIn(s, Refs(ty)) && VisitingOk(s, visiting) && Passes(s, visiting)
    ensures FixedIn(s, ty, visiting) <==> !CoreVaries(s, ty, visiting)
    decreases |s| - |visiting|, ty, 1
  {
    match ty {
      case SArray(item, _) => FixedExactly(s, item, visiting);
      case SNamed(id) =>
        assert Refs(ty)[0] == id;
        if id in visiting {
          VisitedFixed(s, id, visiting);
        } else {
          DeclFixedExactly(s, id, visiting);
        }
      case _ =>
    }
  }

  lemma {:induction false} VisitedFixed(s: Schema, id: nat, visiting: seq<nat>)
    requires id in visiting && id < |s| && Passes(s, visiting)
    ensures !NameVaries(s, id, visiting) && (HoldsFields(s[id]) || s[id].TypeDecl?)
  {
    forall walk ensures !VariesBy(s, id, visiting, walk) {
      assert walk != [] && walk[0] == id ==> !NoneIn(walk, visiting);
    }
  }

  /** What the declaration keeps varies: by itself, or in place further on. */
  ghost predicate KeptVaries(s: Schema, d: Decl, visiting: seq<nat>) {
    exists ty :: Keeps(d, ty) && (VariesItself(ty) || (ty.SNamed? && NameVaries(s, ty.id, visiting)))
  }

  lemma {:induction false} NameVariesIf(s: Schema, id: nat, visiting: seq<nat>)
    requires id < |s| && id !in visiting
    ensures NameVaries(s, id, visiting) <==> DeclVaries(s, s[id]) || KeptVaries(s, s[id], visiting + [id])
  {
    hide Keeps, VariesItself;
    if NameVaries(s, id, visiting) {
      var walk :| VariesBy(s, id, visiting, walk);
      LastPass(s, id, visiting, walk);
    }
    if DeclVaries(s, s[id]) {
      assert VariesBy(s, id, visiting, [id]);
    } else if KeptVaries(s, s[id], visiting + [id]) {
      var ty :| Keeps(s[id], ty) && (VariesItself(ty) || (ty.SNamed? && NameVaries(s, ty.id, visiting + [id])));
      assert !VariesItself(ty);
      WalkPasses(s, id, ty.id, visiting);
    }
  }

  lemma {:induction false} DeclFixedExactly(s: Schema, id: nat, visiting: seq<nat>)
    requires Closed(s) && id < |s| && VisitingOk(s, visiting) && Passes(s, visiting) && id !in visiting
    ensures RefsIn(s, Refs(SNamed(id)))
    ensures FixedIn(s, SNamed(id), visiting) <==> !NameVaries(s, id, visiting)
    decreases |s| - |visiting|, SNamed(id), 0
  {
    VisitingGrows(s, visiting, id);
    NameVariesIf(s, id, visiting);
    hide NameVaries;
    var d, inner := s[id], visiting + [id];
    if d.TypeDecl? {
      ClosedTarget(s, id);
      FixedExactly(s, d.target, inner);
    } else if HoldsFields(d) {
      forall i | 0 <= i < |d.fields|
        ensures RefsIn(s, Refs(d.fields[i].ty))
        ensures FixedIn(s, d.fields[i].ty, inner) <==> !CoreVaries(s, d.fields[i].ty, inner)
      {
        ClosedField(s, id, i);
        FixedExactly(s, d.fields[i].ty, inner);
      }
      FieldsExactly(s, id, inner);
    }
  }

  lemma {:induction false} FieldsExactly(s: Schema, id: nat, inner: seq<nat>)
    requires Closed(s) && id < |s| && HoldsFields(s[id]) && VisitingOk(s, inner) && |inner| <= |s|
    requires forall i :: 0 <= i < |s[id].fields| ==> RefsIn(s, Refs(s[id].fields[i].ty))
    requires forall i :: 0 <= i < |s[id].fields| ==>
      (FixedIn(s, s[id].fields[i].ty, inner) <==> !CoreVaries(s, s[id].fields[i].ty, inner))
    ensures FieldsFixed(s, id, inner, |s[id].fields|) <==> !DeclVaries(s, s[id]) && !KeptVaries(s, s[id], inner)
  {
    hide FixedIn, NameVaries, VariesItself, Core, Followed, Refs;
    var fields := s[id].fields;
    if FieldsFixed(s, id, inner, |fields|) {
      forall ty | Keeps(s[id], ty) ensures !VariesItself(ty) && !(ty.SNamed? && NameVaries(s, ty.id, inner)) {
        var i :| 0 <= i < |fields| && Core(fields[i].ty) == ty;
        assert FixedIn(s, fields[i].ty, inner);
      }
    } else {
      var i :| 0 <= i < |fields| &&
        !((fields[i].optional ==> Followed(s, fields[i].ty, |s| + 1) == SScalar(Bool)) && FixedIn(s, fields[i].ty, inner));
      assert Keeps(s[id], Core(fields[i].ty));
    }
  }
}
