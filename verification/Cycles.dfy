/** The check for recursive types: a depth-first walk of the declarations in three colours. */
module Cycles {
  import opened Wrappers
  import opened Schemas

  datatype Mark = White | Grey | Black

  /** Where the walk is: what it entered, left, is visiting (outermost first) and reported, each in order. */
  datatype Progress = Progress(entered: seq<nat>, left: seq<nat>, stack: seq<nat>, reports: seq<nat>)

  ghost predicate AllIn(refs: seq<nat>, ids: seq<nat>) {
    forall k :: 0 <= k < |refs| ==> refs[k] in ids
  }

  ghost predicate NoneIn(walk: seq<nat>, ids: seq<nat>) {
    forall k :: 0 <= k < |walk| ==> walk[k] !in ids
  }

  /** `id` is on a cycle of declarations not among those entered `before` it. */
  ghost predicate FirstOnCycle(s: Schema, before: seq<nat>, id: nat) {
    exists walk :: IsCycle(s, walk) && walk[0] == id && NoneIn(walk, before)
  }

  /** `id` is the first reference of `from` that leads to none of `before`. */
  ghost predicate FirstNew(s: Schema, before: seq<nat>, from: nat, id: nat)
    requires from < |s|
  {
    var refs := DeclRefs(s[from]);
    id !in before && exists k :: 0 <= k < |refs| && refs[k] == id && AllIn(refs[..k], before)
  }

  /** Nothing entered from position `p` on refers to a declaration not entered. */
  ghost predicate ExhaustedFrom(s: Schema, entered: seq<nat>, p: nat) {
    forall q :: p <= q < |entered| ==> entered[q] < |s| && AllIn(DeclRefs(s[entered[q]]), entered)
  }

  /**
   Depth first, `id` comes after `before`: it is the first new reference of the last declaration
   that has one, and once none has, the first declaration not entered.
   */
  ghost predicate NextEntered(s: Schema, before: seq<nat>, id: nat) {
    || (exists p :: 0 <= p < |before| && before[p] < |s| && FirstNew(s, before, before[p], id) && ExhaustedFrom(s, before, p + 1))
    || (id !in before && ExhaustedFrom(s, before, 0) && forall other: nat :: other < id ==> other in before)
  }

  /** The declarations are entered depth first; there is one such order only. */
  ghost predicate DepthFirst(s: Schema, entered: seq<nat>) {
    forall p :: 0 <= p < |entered| ==> entered[p] < |s| && NextEntered(s, entered[..p], entered[p])
  }

  /** Each declaration left refers only to ones left before it and to ones reported. */
  ghost predicate Settled(s: Schema, left: seq<nat>, reports: seq<nat>) {
    forall k :: 0 <= k < |left| ==> left[k] < |s| && AllIn(DeclRefs(s[left[k]]), left[..k] + reports)
  }

  /** What is being visited was entered outermost first. */
  ghost predicate Nested(entered: seq<nat>, stack: seq<nat>) {
    forall j, p :: 0 <= j < |stack| && 0 <= p < |entered| && stack[j] == entered[p] ==> AllIn(stack[..j], entered[..p])
  }

  /** A declaration left that is the first entered of a cycle is reported. */
  ghost predicate Caught(s: Schema, at: Progress) {
    forall p :: 0 <= p < |at.entered| && at.entered[p] in at.left && FirstOnCycle(s, at.entered[..p], at.entered[p]) ==>
      at.entered[p] in at.reports
  }

  /** What is reported is the first entered of a cycle. */
  ghost predicate Guilty(s: Schema, entered: seq<nat>, id: nat) {
    exists p :: 0 <= p < |entered| && entered[p] == id && FirstOnCycle(s, entered[..p], id)
  }

  /** White declarations are those not entered, black ones those left, grey ones those being visited. */
  ghost predicate Coloured(marks: seq<Mark>, at: Progress) {
    && (forall id: nat :: id < |marks| ==>
      && (marks[id].Black? <==> id in at.left)
      && (marks[id].Grey? <==> id in at.stack)
      && (marks[id].White? <==> id !in at.entered))
    && AllBelow(at.entered, |marks|) && AllBelow(at.left, |marks|) && AllBelow(at.stack, |marks|)
    && Distinct(at.entered) && Distinct(at.left) && Distinct(at.stack)
  }

  ghost predicate AllBelow(ids: seq<nat>, n: nat) {
    forall k :: 0 <= k < |ids| ==> ids[k] < n
  }

  /** What the walk keeps; the declarations being visited are each reached from the one before. */
  ghost predicate Walking(s: Schema, marks: seq<Mark>, at: Progress) {
    && |marks| == |s| && Coloured(marks, at)
    && IsWalk(s, at.stack) && Nested(at.entered, at.stack)
    && DepthFirst(s, at.entered) && Settled(s, at.left, at.reports) && Caught(s, at)
    && (forall k :: 0 <= k < |at.reports| ==> Guilty(s, at.entered, at.reports[k]))
  }

  ghost function Whites(marks: seq<Mark>): set<nat> {
    set id: nat | id < |marks| && marks[id].White?
  }

  /** The walk over declarations that may be recursive. */
  class Checker {
    const defs: Schema
    const marks: array<Mark>
    /** The declarations reported, in order. */
    var reports: seq<nat>
    ghost var entered: seq<nat>
    ghost var left: seq<nat>
    ghost var stack: seq<nat>

    ghost function At(): Progress
      reads this
    {
      Progress(entered, left, stack, reports)
    }

    ghost predicate Valid()
      reads this, marks
    {
      Lowered(defs) && marks.Length == |defs| && Walking(defs, marks[..], At())
    }

    constructor (defs: Schema)
      requires Lowered(defs)
      ensures Valid() && this.defs == defs && fresh(marks)
      ensures At() == Progress([], [], [], [])
    {
      this.defs := defs;
      this.marks := new Mark[|defs|](_ => White);
      this.reports, this.entered, this.left, this.stack := [], [], [], [];
    }

    /** `visit`. */
    method Visit(index: nat)
      requires Valid() && index < |defs| && marks[index].White?
      requires MayEnter(defs, At(), index)
      modifies this, marks
      ensures Valid() && stack == old(stack) && index in left
      ensures old(left) <= left && old(reports) <= reports && old(entered) <= entered
      ensures Whites(marks[..]) < old(Whites(marks[..]))
      decreases Whites(marks[..])
    {
      hide Walking, DeclRefs, Lowered;
      ghost var whites, outer := Whites(marks[..]), stack;
      Enter(defs, marks[..], At(), index);
      ghost var before := marks[..];
      marks[index] := Grey;
      stack, entered := stack + [index], entered + [index];
      assert marks[..] == before[index := Grey];
      assert index in whites && Whites(marks[..]) < whites;
      DeclRefsOk(defs, index);
      var targets := DeclRefs(defs[index]);
      for k := 0 to |targets|
        invariant Valid() && stack == outer + [index]
        invariant old(left) <= left && old(reports) <= reports && old(entered) <= entered
        invariant Whites(marks[..]) < whites
        invariant AllIn(targets[..k], left + reports)
      {
        ghost var soFar := left + reports;
        var target := targets[k];
        TargetMark(defs, marks[..], At(), target);
        if marks[target].White? {
          Fresh(defs, marks[..], At(), index, k);
          Visit(target);
        } else if marks[target].Grey? {
          Report(defs, marks[..], At(), target);
          reports := reports + [target];
        }
        StillIn(targets, k, soFar, left + reports);
      }
      assert targets[..|targets|] == targets;
      Leave(defs, marks[..], At(), outer, index);
      before := marks[..];
      marks[index] := Black;
      assert marks[..] == before[index := Black] && Whites(marks[..]) <= Whites(before);
      left, stack := left + [index], outer;
    }

    /**
     `check_cycles`: what is reported is exactly what is entered first, depth first, of some cycle,
     so that every cycle has a declaration reported; when nothing is reported the declarations can
     be numbered along their references, and no type is recursive.
     */
    method CheckCycles() returns (ghost rank: seq<nat>)
      requires Valid() && At() == Progress([], [], [], [])
      modifies this, marks
      ensures Distinct(entered) && (forall id: nat :: id in entered <==> id < |defs|) && DepthFirst(defs, entered)
      ensures forall p :: 0 <= p < |entered| ==> (entered[p] in reports <==> FirstOnCycle(defs, entered[..p], entered[p]))
      ensures forall k :: 0 <= k < |reports| ==> reports[k] in entered
      ensures forall walk :: IsCycle(defs, walk) ==> exists k :: 0 <= k < |reports| && reports[k] in walk
      ensures reports != [] <==> Recursive(defs)
      ensures reports == [] ==> Ranked(defs, rank)
    {
      hide Walking, IsCycle, IsWalk, DeclRefs, Lowered, FirstOnCycle, DepthFirst, Guilty, Settled, Distinct, Recursive, Ranked;
      for index := 0 to |defs|
        invariant Valid() && stack == []
        invariant forall id: nat :: id < index ==> id in left
      {
        ghost var soFar := left;
        RootMark(defs, marks[..], At(), index);
        if marks[index].White? {
          Visit(index);
          assert forall id :: id in soFar ==> id in left;
        }
      }
      AllLeft(defs, marks[..], At());
      rank := [];
      if reports == [] {
        rank := Numbering(left, |defs|);
        NumberingRanked(defs, left);
        RankedAcyclic(defs, rank);
      } else {
        GuiltyRecursive(defs, entered, reports[0]);
      }
    }
  }

  /** A declaration is entered from the one being visited, or once none is and all before it are left. */
  ghost predicate MayEnter(s: Schema, at: Progress, index: nat) {
    if at.stack == [] then forall other: nat :: other < index ==> other in at.left
    else
      var top := at.stack[|at.stack| - 1];
      top < |s| && FirstNew(s, at.entered, top, index)
  }

  // ----- what each step of the walk keeps

  lemma {:induction false} StillIn(targets: seq<nat>, k: nat, before: seq<nat>, after: seq<nat>)
    requires k < |targets| && AllIn(targets[..k], before) && targets[k] in after
    requires forall id :: id in before ==> id in after
    ensures AllIn(targets[..k + 1], after)
  {
  }

  lemma {:induction false} GuiltyEntered(s: Schema, entered: seq<nat>, id: nat)
    requires Guilty(s, entered, id)
    ensures id in entered
  {
  }

  /** Everything reached so far was entered. */
  lemma {:induction false} SoFarEntered(s: Schema, marks: seq<Mark>, at: Progress)
    requires Walking(s, marks, at)
    ensures forall id :: id in at.left + at.reports + at.stack ==> id in at.entered
    ensures forall id :: id in at.entered ==> id in at.left || id in at.stack
  {
    hide DepthFirst, Settled, Caught, Nested, IsWalk, FirstOnCycle;
    forall id | id in at.reports ensures id in at.entered {
      var k :| 0 <= k < |at.reports| && at.reports[k] == id;
      GuiltyEntered(s, at.entered, id);
    }
    forall id: nat | id in at.left + at.stack ensures id in at.entered {
      assert id < |marks|;
    }
    forall id | id in at.entered ensures id in at.left || id in at.stack {
      assert id < |marks|;
    }
  }

  /** What was entered after the declaration being visited is left. */
  lemma {:induction false} LaterLeft(s: Schema, marks: seq<Mark>, at: Progress, p: nat)
    requires Walking(s, marks, at)
    requires if at.stack == [] then p == 0 else 0 < p <= |at.entered| && at.entered[p - 1] == at.stack[|at.stack| - 1]
    ensures forall q :: p <= q < |at.entered| ==> at.entered[q] in at.left
  {
    hide DepthFirst, Settled, Caught, IsWalk, Guilty;
    SoFarEntered(s, marks, at);
    forall q | p <= q < |at.entered| && at.entered[q] in at.stack ensures false {
      var j :| 0 <= j < |at.stack| && at.stack[j] == at.entered[q];
      NotBefore(at.entered, at.stack, j, q, |at.stack| - 1);
      assert false;
    }
  }

  /** Declarations left refer only to declarations entered. */
  lemma {:induction false} LeftExhausted(s: Schema, marks: seq<Mark>, at: Progress, p: nat)
    requires Walking(s, marks, at) && p <= |at.entered|
    requires forall q :: p <= q < |at.entered| ==> at.entered[q] in at.left
    ensures ExhaustedFrom(s, at.entered, p)
  {
    hide DepthFirst, Caught, IsWalk, Guilty, Nested, DeclRefs;
    SoFarEntered(s, marks, at);
    forall q | p <= q < |at.entered| ensures at.entered[q] < |s| && AllIn(DeclRefs(s[at.entered[q]]), at.entered) {
      var k :| 0 <= k < |at.left| && at.left[k] == at.entered[q];
      LeftRefs(s, at.left, at.reports, k);
    }
  }

  lemma {:induction false} LeftRefs(s: Schema, left: seq<nat>, reports: seq<nat>, k: nat)
    requires Settled(s, left, reports) && k < |left|
    ensures left[k] < |s| && AllIn(DeclRefs(s[left[k]]), left + reports)
  {
    var refs := DeclRefs(s[left[k]]);
    forall j | 0 <= j < |refs| ensures refs[j] in left + reports {
      assert refs[j] in left[..k] + reports;
    }
  }

  /** What the walk enters next is what comes next depth first. */
  lemma {:induction false} EnterNext(s: Schema, marks: seq<Mark>, at: Progress, index: nat)
    requires Walking(s, marks, at) && index < |s| && marks[index].White? && MayEnter(s, at, index)
    ensures NextEntered(s, at.entered, index) && index !in at.entered
  {
    hide DepthFirst, Caught, IsWalk, Guilty, Settled, Nested, FirstNew, ExhaustedFrom;
    SoFarEntered(s, marks, at);
    if at.stack == [] {
      LaterLeft(s, marks, at, 0);
      LeftExhausted(s, marks, at, 0);
    } else {
      var top := at.stack[|at.stack| - 1];
      assert top in at.stack;
      var p :| 0 <= p < |at.entered| && at.entered[p] == top;
      LaterLeft(s, marks, at, p + 1);
      LeftExhausted(s, marks, at, p + 1);
    }
  }

  lemma {:induction false} Enter(s: Schema, marks: seq<Mark>, at: Progress, index: nat)
    requires Walking(s, marks, at) && index < |s| && marks[index].White? && MayEnter(s, at, index)
    ensures Walking(s, marks[index := Grey], Progress(at.entered + [index], at.left, at.stack + [index], at.reports))
  {
    hide FirstOnCycle, NextEntered, DeclRefs;
    EnterNext(s, marks, at, index);
    SoFarEntered(s, marks, at);
    var after := Progress(at.entered + [index], at.left, at.stack + [index], at.reports);
    EnterColours(marks, at, index);
    EnterWalk(s, at, index);
    EnterNested(at.entered, at.stack, index);
    assert DepthFirst(s, after.entered) by {
      forall p | 0 <= p < |after.entered| ensures after.entered[p] < |s| && NextEntered(s, after.entered[..p], after.entered[p]) {
        assert after.entered[..p] == at.entered[..p];
      }
    }
    forall p | 0 <= p < |after.entered| && after.entered[p] in after.left && FirstOnCycle(s, after.entered[..p], after.entered[p])
      ensures after.entered[p] in after.reports
    {
      assert after.entered[p] != index && after.entered[..p] == at.entered[..p];
    }
    forall k | 0 <= k < |at.reports| ensures Guilty(s, after.entered, at.reports[k]) {
      GuiltyOn(s, at.entered, index, at.reports[k]);
    }
  }

  lemma {:induction false} EnterColours(marks: seq<Mark>, at: Progress, index: nat)
    requires Coloured(marks, at) && index < |marks| && marks[index].White?
    ensures Coloured(marks[index := Grey], Progress(at.entered + [index], at.left, at.stack + [index], at.reports))
  {
    assert index !in at.entered && index !in at.stack && index !in at.left;
  }

  lemma {:induction false} EnterWalk(s: Schema, at: Progress, index: nat)
    requires IsWalk(s, at.stack) && MayEnter(s, at, index)
    ensures IsWalk(s, at.stack + [index])
  {
    if at.stack != [] {
      WalkOn(s, at.stack, index);
    }
  }

  lemma {:induction false} EnterNested(entered: seq<nat>, stack: seq<nat>, index: nat)
    requires Nested(entered, stack) && index !in entered && index !in stack && AllIn(stack, entered)
    ensures Nested(entered + [index], stack + [index])
  {
    var e, t := entered + [index], stack + [index];
    forall j, p | 0 <= j < |t| && 0 <= p < |e| && t[j] == e[p] ensures AllIn(t[..j], e[..p]) {
      assert t[..j] == stack[..j] && e[..p] == entered[..p];
      if j == |stack| {
        assert p == |entered| && stack[..j] == stack && entered[..p] == entered;
      } else {
        assert stack[j] in stack && p < |entered|;
      }
    }
  }

  lemma {:induction false} GuiltyOn(s: Schema, entered: seq<nat>, index: nat, id: nat)
    requires Guilty(s, entered, id)
    ensures Guilty(s, entered + [index], id)
  {
    hide FirstOnCycle;
    var p :| 0 <= p < |entered| && entered[p] == id && FirstOnCycle(s, entered[..p], id);
    assert (entered + [index])[p] == id && (entered + [index])[..p] == entered[..p];
  }

  /** A reference leads to a declaration not entered, one left, or one being visited. */
  lemma {:induction false} TargetMark(s: Schema, marks: seq<Mark>, at: Progress, target: nat)
    requires Walking(s, marks, at) && target < |s|
    ensures marks[target].Black? ==> target in at.left
    ensures marks[target].Grey? ==> target in at.stack
  {
    hide DepthFirst, Caught, IsWalk, Guilty, Settled, Nested;
  }

  /** With nothing being visited, a declaration is not entered or left, and may be entered in its turn. */
  lemma {:induction false} RootMark(s: Schema, marks: seq<Mark>, at: Progress, index: nat)
    requires Walking(s, marks, at) && index < |s| && at.stack == [] && forall id: nat :: id < index ==> id in at.left
    ensures marks[index].White? ==> MayEnter(s, at, index)
    ensures !marks[index].White? ==> index in at.left
  {
    hide DepthFirst, Caught, IsWalk, Guilty, Settled, Nested;
  }

  /** A target not entered is the first reference of its kind, those before it being entered. */
  lemma {:induction false} Fresh(s: Schema, marks: seq<Mark>, at: Progress, index: nat, k: nat)
    requires Walking(s, marks, at) && index < |s| && at.stack != [] && at.stack[|at.stack| - 1] == index
    requires k < |DeclRefs(s[index])| && AllIn(DeclRefs(s[index])[..k], at.left + at.reports)
    requires DeclRefs(s[index])[k] < |s| && marks[DeclRefs(s[index])[k]].White?
    ensures MayEnter(s, at, DeclRefs(s[index])[k])
  {
    hide DepthFirst, Caught, IsWalk, Guilty, Settled, Nested, DeclRefs;
    SoFarEntered(s, marks, at);
    var refs := DeclRefs(s[index]);
    assert AllIn(refs[..k], at.entered) by {
      forall j | 0 <= j < |refs[..k]| ensures refs[..k][j] in at.entered {
        assert refs[..k][j] in at.left + at.reports;
      }
    }
    assert FirstNew(s, at.entered, index, refs[k]);
  }

  /** A reference back to a declaration being visited, the first entered of a cycle. */
  lemma {:induction false} Report(s: Schema, marks: seq<Mark>, at: Progress, target: nat)
    requires Walking(s, marks, at) && target in at.stack
    requires at.stack[|at.stack| - 1] < |s| && target in DeclRefs(s[at.stack[|at.stack| - 1]])
    ensures Walking(s, marks, at.(reports := at.reports + [target]))
  {
    hide DepthFirst, DeclRefs;
    var after := at.(reports := at.reports + [target]);
    assert Guilty(s, at.entered, target) by {
      SoFarEntered(s, marks, at);
      CloseCycle(s, at.entered, at.stack, target);
    }
    hide FirstOnCycle, Guilty, IsWalk, Nested;
    forall k | 0 <= k < |at.left| ensures AllIn(DeclRefs(s[at.left[k]]), at.left[..k] + after.reports) {
      var refs := DeclRefs(s[at.left[k]]);
      forall j | 0 <= j < |refs| ensures refs[j] in at.left[..k] + after.reports {
        assert refs[j] in at.left[..k] + at.reports;
      }
    }
  }

  /** The walk leaves a declaration whose references it followed. */
  lemma {:induction false} Leave(s: Schema, marks: seq<Mark>, at: Progress, outer: seq<nat>, index: nat)
    requires Walking(s, marks, at) && index < |s| && at.stack == outer + [index]
    requires AllIn(DeclRefs(s[index]), at.left + at.reports)
    ensures Walking(s, marks[index := Black], Progress(at.entered, at.left + [index], outer, at.reports))
  {
    hide DeclRefs, FirstOnCycle, DepthFirst, Guilty;
    LeaveStack(outer, index);
    LeaveColours(marks, at, outer, index);
    LeaveSettled(s, at.left, at.reports, index);
    LeaveWalk(s, outer, index);
    LeaveCaught(s, marks, at, outer, index);
    assert Nested(at.entered, outer) by {
      forall j, p | 0 <= j < |outer| && 0 <= p < |at.entered| && outer[j] == at.entered[p]
        ensures AllIn(outer[..j], at.entered[..p])
      {
        assert at.stack[j] == outer[j] && at.stack[..j] == outer[..j];
      }
    }
  }

  lemma {:induction false} LeaveColours(marks: seq<Mark>, at: Progress, outer: seq<nat>, index: nat)
    requires Coloured(marks, at) && index < |marks| && at.stack == outer + [index]
    requires index !in outer && Distinct(outer) && forall id :: id in outer + [index] && id != index ==> id in outer
    ensures Coloured(marks[index := Black], Progress(at.entered, at.left + [index], outer, at.reports))
  {
    assert at.stack[|outer|] == index;
    assert index in at.stack && marks[index].Grey? && index !in at.left && index in at.entered;
    assert forall id :: id in outer ==> id in at.stack;
    forall k | 0 <= k < |outer| ensures outer[k] < |marks| {
      assert at.stack[k] == outer[k];
    }
  }

  lemma {:induction false} LeaveSettled(s: Schema, left: seq<nat>, reports: seq<nat>, index: nat)
    requires Settled(s, left, reports) && index < |s| && AllIn(DeclRefs(s[index]), left + reports)
    ensures Settled(s, left + [index], reports)
  {
    hide DeclRefs;
    var after := left + [index];
    forall k | 0 <= k < |after| ensures after[k] < |s| && AllIn(DeclRefs(s[after[k]]), after[..k] + reports) {
      assert after[..k] == if k < |left| then left[..k] else left;
    }
  }

  lemma {:induction false} LeaveWalk(s: Schema, outer: seq<nat>, index: nat)
    requires IsWalk(s, outer + [index])
    ensures IsWalk(s, outer)
  {
    forall k | 0 <= k < |outer| - 1 ensures outer[k] < |s| && outer[k + 1] in DeclRefs(s[outer[k]]) {
      assert (outer + [index])[k] == outer[k] && (outer + [index])[k + 1] == outer[k + 1];
    }
  }

  /** A declaration left without being reported was not the first entered of a cycle. */
  lemma {:induction false} LeaveCaught(s: Schema, marks: seq<Mark>, at: Progress, outer: seq<nat>, index: nat)
    requires Walking(s, marks, at) && index < |s| && at.stack == outer + [index]
    requires AllIn(DeclRefs(s[index]), at.left + at.reports)
    ensures Caught(s, Progress(at.entered, at.left + [index], outer, at.reports))
  {
    hide DeclRefs, DepthFirst, Guilty, FirstOnCycle, Nested, Settled, IsWalk;
    forall p | 0 <= p < |at.entered| && at.entered[p] in at.left + [index] && FirstOnCycle(s, at.entered[..p], at.entered[p])
      ensures at.entered[p] in at.reports
    {
      if at.entered[p] == index {
        LaterLeft(s, marks, at, p + 1);
        SoFarEntered(s, marks, at);
        assert index in at.stack && index !in at.left;
        FirstCaught(s, at, p);
      }
    }
  }

  /** With everything entered after it left, the first entered of a cycle is referred to from what is left. */
  lemma {:induction false} FirstCaught(s: Schema, at: Progress, p: nat)
    requires Settled(s, at.left, at.reports) && p < |at.entered| && at.entered[p] !in at.left && at.entered[p] < |s|
    requires forall q :: p < q < |at.entered| ==> at.entered[q] in at.left
    requires forall id :: id in at.left + at.reports ==> id in at.entered
    requires AllIn(DeclRefs(s[at.entered[p]]), at.left + at.reports)
    requires FirstOnCycle(s, at.entered[..p], at.entered[p])
    ensures at.entered[p] in at.reports
  {
    hide DeclRefs;
    var walk :| IsCycle(s, walk) && walk[0] == at.entered[p] && NoneIn(walk, at.entered[..p]);
    var last := |walk| - 2;
    CycleLeft(s, at, p, walk, last);
    assert walk[last + 1] in DeclRefs(s[walk[last]]);
    RefsLeft(s, at, p, walk[last]);
  }

  /** A cycle that starts at the one being visited stays among what is left. */
  lemma {:induction false} CycleLeft(s: Schema, at: Progress, p: nat, walk: seq<nat>, n: nat)
    requires Settled(s, at.left, at.reports) && p < |at.entered| && at.entered[p] < |s|
    requires forall q :: p < q < |at.entered| ==> at.entered[q] in at.left
    requires forall id :: id in at.left + at.reports ==> id in at.entered
    requires AllIn(DeclRefs(s[at.entered[p]]), at.left + at.reports)
    requires IsWalk(s, walk) && n < |walk| && walk[0] == at.entered[p] && NoneIn(walk, at.entered[..p])
    ensures walk[n] == at.entered[p] || walk[n] in at.left
  {
    hide DeclRefs, Settled;
    if n > 0 {
      CycleLeft(s, at, p, walk, n - 1);
      RefsLeft(s, at, p, walk[n - 1]);
      assert walk[n] in DeclRefs(s[walk[n - 1]]);
      assert walk[n] in at.entered;
      var q :| 0 <= q < |at.entered| && at.entered[q] == walk[n];
      assert q >= p;
    }
  }

  lemma {:induction false} RefsLeft(s: Schema, at: Progress, p: nat, from: nat)
    requires Settled(s, at.left, at.reports) && p < |at.entered| && at.entered[p] < |s|
    requires AllIn(DeclRefs(s[at.entered[p]]), at.left + at.reports)
    requires from == at.entered[p] || from in at.left
    ensures from < |s| && forall id :: id in DeclRefs(s[from]) ==> id in at.left + at.reports
  {
    hide DeclRefs;
    if from != at.entered[p] {
      var k :| 0 <= k < |at.left| && at.left[k] == from;
      LeftRefs(s, at.left, at.reports, k);
    }
  }

  lemma {:induction false} LeaveStack(outer: seq<nat>, index: nat)
    requires Distinct(outer + [index])
    ensures index !in outer && Distinct(outer)
    ensures forall id :: id in outer + [index] && id != index ==> id in outer
  {
    var all := outer + [index];
    assert all[|outer|] == index;
    forall j | 0 <= j < |outer| ensures outer[j] != index {
      assert all[j] == outer[j];
    }
    forall j, k | 0 <= j < k < |outer| ensures outer[j] != outer[k] {
      assert all[j] == outer[j] && all[k] == outer[k];
    }
  }

  // ----- cycles

  lemma {:induction false} WalkFrom(s: Schema, walk: seq<nat>, at: nat)
    requires IsWalk(s, walk) && at <= |walk|
    ensures IsWalk(s, walk[at..])
  {
  }

  lemma {:induction false} WalkOn(s: Schema, walk: seq<nat>, next: nat)
    requires IsWalk(s, walk) && walk != [] && walk[|walk| - 1] < |s| && next in DeclRefs(s[walk[|walk| - 1]])
    ensures IsWalk(s, walk + [next])
  {
  }

  /** A reference back to a declaration being visited closes a cycle, of which it was entered first. */
  lemma {:induction false} CloseCycle(s: Schema, entered: seq<nat>, stack: seq<nat>, target: nat)
    requires IsWalk(s, stack) && stack != [] && target in stack && target in entered
    requires Distinct(entered) && Distinct(stack) && Nested(entered, stack)
    requires stack[|stack| - 1] < |s| && target in DeclRefs(s[stack[|stack| - 1]])
    ensures Guilty(s, entered, target)
  {
    hide DeclRefs;
    var at :| 0 <= at < |stack| && stack[at] == target;
    var p :| 0 <= p < |entered| && entered[p] == target;
    var walk := stack[at..] + [target];
    WalkFrom(s, stack, at);
    WalkOn(s, stack[at..], target);
    assert walk[0] == target && IsCycle(s, walk);
    hide IsWalk, IsCycle;
    assert NoneIn(walk, entered[..p]) by {
      forall k | 0 <= k < |walk| ensures walk[k] !in entered[..p] {
        NotBefore(entered, stack, at, p, if k < |stack| - at then at + k else at);
      }
    }
    assert FirstOnCycle(s, entered[..p], target);
  }

  lemma {:induction false} NotBefore(entered: seq<nat>, stack: seq<nat>, at: nat, p: nat, j: nat)
    requires Distinct(entered) && Nested(entered, stack) && at <= j < |stack| && p < |entered| && stack[at] == entered[p]
    ensures stack[j] !in entered[..p]
  {
    if at < j {
      forall q | 0 <= q < |entered| && entered[q] == stack[j] ensures p < q {
        assert stack[..j][at] == entered[p] && AllIn(stack[..j], entered[..q]);
      }
    }
  }

  lemma {:induction false} GuiltyRecursive(s: Schema, entered: seq<nat>, id: nat)
    requires Guilty(s, entered, id)
    ensures Recursive(s)
  {
  }

  /** The walk is over: everything is left, and each cycle has a declaration reported. */
  lemma {:induction false} AllLeft(s: Schema, marks: seq<Mark>, at: Progress)
    requires Walking(s, marks, at) && at.stack == [] && forall id: nat :: id < |s| ==> id in at.left
    ensures forall id: nat :: id in at.entered <==> id < |s|
    ensures Distinct(at.entered) && Distinct(at.left) && DepthFirst(s, at.entered) && Settled(s, at.left, at.reports)
    ensures forall k :: 0 <= k < |at.left| ==> at.left[k] < |s|
    ensures forall k :: 0 <= k < |at.reports| ==> Guilty(s, at.entered, at.reports[k]) && at.reports[k] in at.entered
    ensures forall p :: 0 <= p < |at.entered| ==> (at.entered[p] in at.reports <==> FirstOnCycle(s, at.entered[..p], at.entered[p]))
    ensures forall walk :: IsCycle(s, walk) ==> exists k :: 0 <= k < |at.reports| && at.reports[k] in walk
  {
    hide DepthFirst, FirstOnCycle, IsCycle, Nested;
    SoFarEntered(s, marks, at);
    forall p | 0 <= p < |at.entered| && at.entered[p] in at.reports ensures FirstOnCycle(s, at.entered[..p], at.entered[p]) {
      var k :| 0 <= k < |at.reports| && at.reports[k] == at.entered[p];
      var q :| 0 <= q < |at.entered| && at.entered[q] == at.reports[k] && FirstOnCycle(s, at.entered[..q], at.reports[k]);
      assert q == p;
    }
    forall walk | IsCycle(s, walk) ensures exists k :: 0 <= k < |at.reports| && at.reports[k] in walk {
      CycleReported(s, at.left, at.reports, walk);
    }
  }

  /** References between declarations not reported lead to ones left before. */
  lemma {:induction false} WalkFallsBack(s: Schema, left: seq<nat>, reports: seq<nat>, walk: seq<nat>)
    requires Settled(s, left, reports) && Distinct(left) && IsWalk(s, walk) && |walk| >= 2
    requires AllIn(walk, left) && NoneIn(walk, reports)
    ensures IndexOf(left, walk[|walk| - 1]) < IndexOf(left, walk[0])
  {
    hide DeclRefs;
    var n := |walk| - 1;
    var k := IndexOf(left, walk[n - 1]);
    assert walk[n] in DeclRefs(s[left[k]]) && walk[n] in left[..k] + reports;
    var j :| 0 <= j < k && left[j] == walk[n];
    assert IndexOf(left, walk[n]) == j;
    if n > 1 {
      WalkFallsBack(s, left, reports, walk[..n]);
    }
  }

  lemma {:induction false} CycleReported(s: Schema, left: seq<nat>, reports: seq<nat>, walk: seq<nat>)
    requires Settled(s, left, reports) && Distinct(left) && IsCycle(s, walk)
    requires forall id: nat :: id < |s| ==> id in left
    ensures exists k :: 0 <= k < |reports| && reports[k] in walk
  {
    hide DeclRefs, Settled;
    forall k | 0 <= k < |walk| ensures walk[k] in left {
      assert walk[if k < |walk| - 1 then k else 0] < |s|;
    }
    if NoneIn(walk, reports) {
      WalkFallsBack(s, left, reports, walk);
    } else {
      var j :| 0 <= j < |walk| && walk[j] in reports;
    }
  }

  // ----- the order of the walk

  lemma {:induction false} NextUnique(s: Schema, before: seq<nat>, a: nat, b: nat)
    requires NextEntered(s, before, a) && NextEntered(s, before, b)
    ensures a == b
  {
    hide DeclRefs;
    if !ExhaustedFrom(s, before, 0) {
      var p :| 0 <= p < |before| && before[p] < |s| && FirstNew(s, before, before[p], a) && ExhaustedFrom(s, before, p + 1);
      var q :| 0 <= q < |before| && before[q] < |s| && FirstNew(s, before, before[q], b) && ExhaustedFrom(s, before, q + 1);
      NotExhausted(s, before, p, a, q + 1);
      NotExhausted(s, before, q, b, p + 1);
      var refs := DeclRefs(s[before[p]]);
      var j :| 0 <= j < |refs| && refs[j] == a && AllIn(refs[..j], before);
      var k :| 0 <= k < |refs| && refs[k] == b && AllIn(refs[..k], before);
      FirstIsLeast(refs, before, j, k);
      FirstIsLeast(refs, before, k, j);
    }
  }

  lemma {:induction false} FirstIsLeast(refs: seq<nat>, before: seq<nat>, j: nat, k: nat)
    requires j < |refs| && k < |refs| && refs[j] !in before && AllIn(refs[..k], before)
    ensures k <= j
  {
    assert forall i :: 0 <= i < k ==> refs[..k][i] == refs[i];
  }

  lemma {:induction false} NotExhausted(s: Schema, before: seq<nat>, p: nat, id: nat, from: nat)
    requires p < |before| && before[p] < |s| && FirstNew(s, before, before[p], id) && ExhaustedFrom(s, before, from)
    ensures p < from
  {
  }

  /** There is one order in which to enter the declarations depth first. */
  lemma {:induction false} DepthFirstUnique(s: Schema, a: seq<nat>, b: seq<nat>)
    requires DepthFirst(s, a) && DepthFirst(s, b) && |a| == |b|
    ensures a == b
  {
    hide NextEntered;
    if a != [] {
      var n := |a| - 1;
      DepthFirstFront(s, a);
      DepthFirstFront(s, b);
      DepthFirstUnique(s, a[..n], b[..n]);
      NextUnique(s, a[..n], a[n], b[n]);
    }
  }

  lemma {:induction false} DepthFirstFront(s: Schema, order: seq<nat>)
    requires DepthFirst(s, order) && order != []
    ensures DepthFirst(s, order[..|order| - 1])
  {
    hide NextEntered;
    var front := order[..|order| - 1];
    forall p | 0 <= p < |front| ensures front[p] < |s| && NextEntered(s, front[..p], front[p]) {
      assert front[..p] == order[..p];
    }
  }

  /** Where `id` is in `ids`. */
  ghost function IndexOf(ids: seq<nat>, id: nat): (k: nat)
    requires id in ids
    ensures k < |ids| && ids[k] == id
  {
    if ids[0] == id then 0 else 1 + IndexOf(ids[1..], id)
  }

  ghost function Below(n: nat): (r: set<nat>)
    ensures |r| == n && forall id: nat :: id in r <==> id < n
  {
    if n == 0 then {} else Below(n - 1) + {n - 1}
  }

  ghost function Members(ids: seq<nat>): (r: set<nat>)
    requires Distinct(ids)
    ensures |r| == |ids| && forall id :: id in r <==> id in ids
  {
    if ids == [] then {}
    else
      LeaveStack(ids[..|ids| - 1], ids[|ids| - 1]);
      assert ids == ids[..|ids| - 1] + [ids[|ids| - 1]];
      Members(ids[..|ids| - 1]) + {ids[|ids| - 1]}
  }

  /** Distinct numbers below `n` are at most `n`. */
  lemma {:induction false} DistinctBounded(ids: seq<nat>, n: nat)
    requires Distinct(ids) && forall k :: 0 <= k < |ids| ==> ids[k] < n
    ensures |ids| <= n
  {
    SubsetSize(Members(ids), Below(n));
  }

  lemma {:induction false} SubsetSize(a: set<nat>, b: set<nat>)
    requires a <= b
    ensures |a| <= |b|
  {
    if a != {} {
      var x :| x in a;
      SubsetSize(a - {x}, b - {x});
    }
  }

  /** Numbers the declarations in the order they were left. */
  ghost function Numbering(order: seq<nat>, n: nat): (rank: seq<nat>)
    requires forall id: nat :: id < n ==> id in order
    ensures |rank| == n && forall id :: 0 <= id < n ==> rank[id] == IndexOf(order, id)
  {
    seq(n, id requires 0 <= id < n => IndexOf(order, id))
  }

  /** References lead to lower numbers when nothing was reported. */
  lemma {:induction false} NumberingRanked(s: Schema, order: seq<nat>)
    requires Distinct(order) && (forall k :: 0 <= k < |order| ==> order[k] < |s|)
    requires forall id: nat :: id < |s| ==> id in order
    requires Settled(s, order, [])
    ensures Ranked(s, Numbering(order, |s|))
  {
    hide DeclRefs;
    var rank := Numbering(order, |s|);
    DistinctBounded(order, |s|);
    forall id: nat | id < |s| ensures RefsBelow(rank, rank[id], DeclRefs(s[id])) {
      var k := IndexOf(order, id);
      assert AllIn(DeclRefs(s[order[k]]), order[..k] + []);
      NumberedBelow(order, rank, k, DeclRefs(s[id]));
    }
  }

  lemma {:induction false} NumberedBelow(order: seq<nat>, rank: seq<nat>, k: nat, refs: seq<nat>)
    requires Distinct(order) && k <= |order| && AllIn(refs, order[..k])
    requires forall j :: 0 <= j < |order| ==> order[j] < |rank|
    requires forall id :: 0 <= id < |rank| ==> id in order && rank[id] == IndexOf(order, id)
    ensures RefsBelow(rank, k, refs)
  {
    forall i | 0 <= i < |refs| ensures refs[i] < |rank| && rank[refs[i]] < k {
      var j :| 0 <= j < k && order[j] == refs[i];
      assert IndexOf(order, refs[i]) == j;
    }
  }
}
