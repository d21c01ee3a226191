/**
 Sizes, widths, and where an object keeps each field. All the layout knows of a field is its
 `Member`: whether it may be absent, whether it is a truth value, and the size of its type.
 */
module Layouts {
  import opened Wrappers
  import opened Bytes

  /** Two bytes hold the size of any message. */
  const MAX_SIZE: nat := 0xffff
  const U32_MAX: nat := 0xffff_ffff

  // ----- sizes and widths

  datatype Size = Fixed(bytes: nat) | Var(max: Option<nat>) {
    /** A bound on every value's encoding, if there is one. */
    function Max(): Option<nat> {
      if Fixed? then Some(bytes) else max
    }
  }

  function Min(a: nat, b: nat): nat {
    if a < b then a else b
  }

  /** A bound past the message size says nothing, so it is none. */
  function Bound(size: nat): Option<nat> {
    if size <= MAX_SIZE then Some(size) else None
  }

  /** How many bytes an unsigned integer needs to reach `max`. */
  function WidthOf(max: nat): (w: nat)
    ensures w in {1, 2, 4, 8}
  {
    if max <= 0xff then 1 else if max <= 0xffff then 2 else if max <= 0xffff_ffff then 4 else 8
  }

  /** How many bytes are set aside for a number within `max`, or within a message. */
  function LengthWidth(max: Option<nat>): (w: nat)
    ensures w in {1, 2, 4, 8}
  {
    WidthOf(max.GetOr(MAX_SIZE))
  }

  lemma {:induction false} WidthHolds(max: nat, value: nat)
    requires value <= max < 0x1_0000_0000_0000_0000
    ensures value < Pow256(WidthOf(max))
  {
    PowValues();
  }

  predicate FitsWidth(value: int, w: nat) {
    0 <= value < Pow256(w)
  }

  /** The width is the least that holds every number up to `max`. */
  lemma {:induction false} WidthLeast(max: nat, w: nat)
    requires w in {1, 2, 4, 8} && max < 0x1_0000_0000_0000_0000
    ensures WidthOf(max) <= w <==> forall value :: 0 <= value <= max ==> FitsWidth(value, w)
  {
    PowValues();
    assert FitsWidth(max, w) <==> max < Pow256(w);
  }

  /** The same of a length, which is within its bound, if any, and a message. */
  lemma {:induction false} LengthLeast(max: Option<nat>, w: nat)
    requires w in {1, 2, 4, 8} && (max.Some? ==> max.value <= MAX_SIZE)
    ensures LengthWidth(max) <= w <==> forall n :: 0 <= n <= max.GetOr(MAX_SIZE) ==> FitsWidth(n, w)
  {
    WidthLeast(max.GetOr(MAX_SIZE), w);
  }

  /** A length within a bound that is itself within the message size takes one or two bytes. */
  lemma {:induction false} LengthHolds(max: Option<nat>, value: nat)
    requires max.Some? ==> value <= max.value <= MAX_SIZE
    requires value <= MAX_SIZE
    ensures LengthWidth(max) in {1, 2} && value < Pow256(LengthWidth(max))
  {
    PowValues();
  }

  /** `value as u32`, which keeps the low 32 bits. */
  function AsU32(value: nat): (r: nat)
    ensures value <= U32_MAX ==> r == value
  {
    value % 0x1_0000_0000
  }

  /** `count * width`, by repeated addition. */
  function Times(count: nat, width: nat): nat {
    if count == 0 then 0 else Times(count - 1, width) + width
  }

  lemma {:induction false} TimesIsProduct(count: nat, width: nat)
    ensures Times(count, width) == count * width
  {
    if count > 0 {
      TimesIsProduct(count - 1, width);
      assert (count - 1) * width + width == count * width;
    }
  }

  lemma {:induction false} TimesMonotone(m: nat, n: nat, width: nat)
    requires m <= n
    ensures Times(m, width) <= Times(n, width)
  {
    if m < n {
      TimesMonotone(m, n - 1, width);
    }
  }

  // ----- members and slots

  datatype Member = Member(optional: bool, flag: bool, size: Size) {
    /** A required fixed-size value, in the head. */
    predicate IsAt() {
      !flag && !optional && size.Fixed?
    }

    /** A value that is there or not, and of one size when it is. */
    predicate IsOptional() {
      !flag && optional && size.Fixed?
    }

    /** A variable-size value, in the var section. */
    predicate IsVar() {
      !flag && size.Var?
    }

    /** The bits it takes in the bitmap. */
    function Bits(): nat {
      (if flag then 1 else 0) + (if optional then 1 else 0)
    }
  }

  datatype Slot =
    | BitSlot(bit: nat)
    | AtSlot(at: nat)
    | OptionalBitSlot(presence: nat, value: nat)
    | OptionalSlot(presence: nat)
    | VarSlot(slot: nat, optionalPresence: Option<nat>)

  datatype Layout = Layout(
    size: Size,
    bitmap: nat,
    boundaries: nat,
    boundary: nat,
    head: nat,
    vars: nat,
    fields: seq<Slot>)

  function Bits(ms: seq<Member>): nat {
    if ms == [] then 0 else Bits(ms[..|ms| - 1]) + ms[|ms| - 1].Bits()
  }

  /** The bytes of the fixed fields. */
  function AtBytes(ms: seq<Member>): nat {
    if ms == [] then 0
    else
      var m := ms[|ms| - 1];
      AtBytes(ms[..|ms| - 1]) + if m.IsAt() then m.size.bytes else 0
  }

  /** The bytes of the optional fixed-size fields when all are present. */
  function OptionalBytes(ms: seq<Member>): nat {
    if ms == [] then 0
    else
      var m := ms[|ms| - 1];
      OptionalBytes(ms[..|ms| - 1]) + if m.IsOptional() then m.size.bytes else 0
  }

  function Vars(ms: seq<Member>): nat {
    if ms == [] then 0 else Vars(ms[..|ms| - 1]) + if ms[|ms| - 1].IsVar() then 1 else 0
  }

  /** The most bytes of the var section, `None` when a field of it is unbounded. */
  function VarMax(ms: seq<Member>): Option<nat> {
    if ms == [] then Some(0)
    else
      var rest, m := VarMax(ms[..|ms| - 1]), ms[|ms| - 1];
      if !m.IsVar() then rest
      else if rest.Some? && m.size.max.Some? then Some(rest.value + m.size.max.value)
      else None
  }

  function Bitmap(ms: seq<Member>): nat {
    (Bits(ms) + 7) / 8
  }

  function Boundaries(ms: seq<Member>): nat {
    Bitmap(ms) + AtBytes(ms)
  }

  function BoundaryCount(ms: seq<Member>): nat {
    if Vars(ms) == 0 then 0 else Vars(ms) - 1
  }

  /** One byte each when even the largest object, with one-byte boundaries, is at most 255 bytes. */
  function BoundaryWidth(ms: seq<Member>): (w: nat)
    ensures w in {1, 2}
  {
    var narrow := if VarMax(ms).None? then None
                  else Bound(Boundaries(ms) + BoundaryCount(ms) + OptionalBytes(ms) + VarMax(ms).value);
    LengthWidth(narrow)
  }

  function Head(ms: seq<Member>): nat {
    Boundaries(ms) + Times(BoundaryCount(ms), BoundaryWidth(ms))
  }

  predicate Varies(ms: seq<Member>) {
    exists i :: 0 <= i < |ms| && (ms[i].IsOptional() || ms[i].IsVar())
  }

  function ObjectSize(ms: seq<Member>): Size {
    if !Varies(ms) then Fixed(Min(Head(ms), U32_MAX))
    else Var(if VarMax(ms).None? then None else Bound(Head(ms) + OptionalBytes(ms) + VarMax(ms).value))
  }

  function SlotOf(ms: seq<Member>, i: nat): Slot
    requires i < |ms|
  {
    var m, bit := ms[i], Bits(ms[..i]);
    if m.flag then
      if m.optional then OptionalBitSlot(bit, bit + 1) else BitSlot(bit)
    else if m.size.Var? then
      VarSlot(Vars(ms[..i]), if m.optional then Some(bit) else None)
    else if m.optional then OptionalSlot(bit)
    else AtSlot(AsU32(Bitmap(ms) + AtBytes(ms[..i])))
  }

  function LayoutOf(ms: seq<Member>): Layout {
    Layout(
      ObjectSize(ms),
      Bitmap(ms),
      Min(Boundaries(ms), U32_MAX),
      BoundaryWidth(ms),
      Min(Head(ms), U32_MAX),
      Vars(ms),
      seq(|ms|, i requires 0 <= i < |ms| => SlotOf(ms, i)))
  }

  // ----- prefixes

  lemma {:induction false} PrefixSums(ms: seq<Member>, i: nat)
    requires i <= |ms|
    ensures Bits(ms[..i]) <= Bits(ms) && AtBytes(ms[..i]) <= AtBytes(ms) && Vars(ms[..i]) <= Vars(ms)
    ensures OptionalBytes(ms[..i]) <= OptionalBytes(ms)
  {
    if i < |ms| {
      var front := ms[..|ms| - 1];
      PrefixSums(front, i);
      assert front[..i] == ms[..i];
    } else {
      assert ms[..i] == ms;
    }
  }

  lemma {:induction false} PrefixStep(ms: seq<Member>, i: nat)
    requires i < |ms|
    ensures Bits(ms[..i + 1]) == Bits(ms[..i]) + ms[i].Bits() <= Bits(ms)
    ensures AtBytes(ms[..i + 1]) == AtBytes(ms[..i]) + (if ms[i].IsAt() then ms[i].size.bytes else 0) <= AtBytes(ms)
    ensures Vars(ms[..i + 1]) == Vars(ms[..i]) + (if ms[i].IsVar() then 1 else 0) <= Vars(ms)
    ensures OptionalBytes(ms[..i + 1]) == OptionalBytes(ms[..i]) + (if ms[i].IsOptional() then ms[i].size.bytes else 0)
  {
    assert ms[..i + 1][..i] == ms[..i];
    PrefixSums(ms, i + 1);
  }

  lemma {:induction false} SlotStep(ms: seq<Member>, i: nat)
    requires i < |ms|
    ensures Vars(ms[..i + 1]) == Vars(ms[..i]) + (if ms[i].IsVar() then 1 else 0) <= Vars(ms)
  {
    PrefixStep(ms, i);
  }

  // ----- well-formedness of a layout

  function Range(from: nat, to: nat): (r: seq<nat>)
    requires from <= to
    ensures |r| == to - from && forall i :: 0 <= i < |r| ==> r[i] == from + i
  {
    seq(to - from, i requires 0 <= i < to - from => from + i)
  }

  /** The bits of the bitmap a slot claims. */
  function SlotBits(slot: Slot): seq<nat> {
    match slot
    case BitSlot(bit) => [bit]
    case OptionalBitSlot(presence, value) => [presence, value]
    case OptionalSlot(presence) => [presence]
    case VarSlot(_, Some(presence)) => [presence]
    case _ => []
  }

  /** The bytes of the head a slot claims, for a value of `size`. */
  function SlotBytes(slot: Slot, size: Size): seq<nat> {
    if slot.AtSlot? && size.Fixed? then Range(slot.at, slot.at + size.bytes) else []
  }

  function SlotVars(slot: Slot): seq<nat> {
    if slot.VarSlot? then [slot.slot] else []
  }

  function AllBits(slots: seq<Slot>): seq<seq<nat>> {
    seq(|slots|, i requires 0 <= i < |slots| => SlotBits(slots[i]))
  }

  function AllBytes(slots: seq<Slot>, ms: seq<Member>): seq<seq<nat>>
    requires |slots| == |ms|
  {
    seq(|slots|, i requires 0 <= i < |slots| => SlotBytes(slots[i], ms[i].size))
  }

  function AllVars(slots: seq<Slot>): seq<seq<nat>> {
    seq(|slots|, i requires 0 <= i < |slots| => SlotVars(slots[i]))
  }

  lemma {:induction false} RangeJoin(a: nat, b: nat, c: nat)
    requires a <= b <= c
    ensures Range(a, b) + Range(b, c) == Range(a, c)
  {
  }

  lemma {:induction false} SlotBitsRange(ms: seq<Member>, i: nat)
    requires i < |ms|
    ensures SlotBits(SlotOf(ms, i)) == Range(Bits(ms[..i]), Bits(ms[..i]) + ms[i].Bits())
  {
  }

  lemma {:induction false} SlotBytesRange(ms: seq<Member>, i: nat)
    requires i < |ms| && Boundaries(ms) <= U32_MAX
    ensures AtBytes(ms[..i]) <= AtBytes(ms[..i + 1])
    ensures SlotBytes(SlotOf(ms, i), ms[i].size)
         == Range(Bitmap(ms) + AtBytes(ms[..i]), Bitmap(ms) + AtBytes(ms[..i + 1]))
  {
    PrefixStep(ms, i);
    assert ms[i].IsAt() || SlotBytes(SlotOf(ms, i), ms[i].size) == [];
  }

  lemma {:induction false} BitsDenseTo(ms: seq<Member>, n: nat)
    requires n <= |ms|
    ensures Flat(AllBits(LayoutOf(ms).fields)[..n]) == Range(0, Bits(ms[..n]))
  {
    if n > 0 {
      BitsDenseTo(ms, n - 1);
      PrefixStep(ms, n - 1);
      var pieces := AllBits(LayoutOf(ms).fields);
      FlatStep(pieces, n - 1);
      SlotBitsRange(ms, n - 1);
      RangeJoin(0, Bits(ms[..n - 1]), Bits(ms[..n]));
    }
  }

  lemma {:induction false} NoAtBytes()
    ensures AtBytes([]) == 0
  {
  }

  lemma {:induction false} BytesTileTo(ms: seq<Member>, slots: seq<Slot>, n: nat)
    requires n <= |ms| == |slots| && Boundaries(ms) <= U32_MAX
    requires forall i :: 0 <= i < |ms| ==> slots[i] == SlotOf(ms, i)
    ensures Flat(AllBytes(slots, ms)[..n]) == Range(Bitmap(ms), Bitmap(ms) + AtBytes(ms[..n]))
  {
    hide SlotOf, AtBytes, SlotBytes, Range;
    assert AtBytes([]) == 0 && Range(Bitmap(ms), Bitmap(ms)) == [] by {
      NoAtBytes();
    }
    var pieces, base := AllBytes(slots, ms), Bitmap(ms);
    if n == 0 {
      assert pieces[..0] == [];
    } else {
      var mid, end := base + AtBytes(ms[..n - 1]), base + AtBytes(ms[..n]);
      BytesTileTo(ms, slots, n - 1);
      FlatStep(pieces, n - 1);
      SlotBytesRange(ms, n - 1);
      RangeJoin(base, mid, end);
    }
  }

  lemma {:induction false} BytesTile(ms: seq<Member>, slots: seq<Slot>)
    requires |ms| == |slots| && Boundaries(ms) <= U32_MAX
    requires forall i :: 0 <= i < |ms| ==> slots[i] == SlotOf(ms, i)
    ensures Flat(AllBytes(slots, ms)) == Range(Bitmap(ms), Boundaries(ms))
  {
    BytesTileTo(ms, slots, |ms|);
    var pieces := AllBytes(slots, ms);
    assert pieces[..|ms|] == pieces && ms[..|ms|] == ms;
    assert Flat(pieces) == Flat(pieces[..|ms|]);
  }

  lemma {:induction false} NoVarsYet()
    ensures Vars([]) == 0 && Range(0, 0) == []
  {
  }

  lemma {:induction false} SlotVarsRange(ms: seq<Member>, i: nat)
    requires i < |ms|
    ensures Vars(ms[..i]) <= Vars(ms[..i + 1])
    ensures SlotVars(SlotOf(ms, i)) == Range(Vars(ms[..i]), Vars(ms[..i + 1]))
  {
    SlotStep(ms, i);
  }

  lemma {:induction false} VarsDenseTo(ms: seq<Member>, n: nat)
    requires n <= |ms|
    ensures Flat(AllVars(LayoutOf(ms).fields)[..n]) == Range(0, Vars(ms[..n]))
  {
    hide SlotOf, Vars, SlotVars, Range, Bits, AtBytes;
    NoVarsYet();
    var pieces := AllVars(LayoutOf(ms).fields);
    if n == 0 {
      assert pieces[..0] == [] && ms[..0] == [];
    } else {
      VarsDenseTo(ms, n - 1);
      FlatStep(pieces, n - 1);
      SlotVarsRange(ms, n - 1);
      RangeJoin(0, Vars(ms[..n - 1]), Vars(ms[..n]));
    }
  }

  /**
   A layout whose head fits a message: in declaration order, the bits claimed are 0, 1, 2, ...
   without gap or overlap, the fixed fields tile the bytes between the bitmap and the boundaries,
   and the var slots are 0, 1, 2, ...
   */
  lemma {:induction false} LayoutWellFormed(ms: seq<Member>)
    requires Head(ms) <= MAX_SIZE
    ensures var l := LayoutOf(ms);
            && Flat(AllBits(l.fields)) == Range(0, Bits(ms))
            && Flat(AllBytes(l.fields, ms)) == Range(l.bitmap, l.boundaries)
            && Flat(AllVars(l.fields)) == Range(0, l.vars)
  {
    var slots := LayoutOf(ms).fields;
    assert ms[..|ms|] == ms;
    assert Flat(AllBits(slots)) == Range(0, Bits(ms)) by {
      BitsDenseTo(ms, |ms|);
      assert AllBits(slots)[..|ms|] == AllBits(slots);
    }
    BytesTile(ms, slots);
    assert Flat(AllVars(slots)) == Range(0, Vars(ms)) by {
      VarsDenseTo(ms, |ms|);
      assert AllVars(slots)[..|ms|] == AllVars(slots);
    }
  }

  /**
   The parts of the head of such a layout follow each other, and no cast to a 32-bit integer
   loses anything.
   */
  lemma {:induction false} HeadWellFormed(ms: seq<Member>)
    requires Head(ms) <= MAX_SIZE
    ensures var l := LayoutOf(ms);
            && 8 * l.bitmap - 8 < Bits(ms) <= 8 * l.bitmap
            && l.bitmap <= l.boundaries <= l.head <= MAX_SIZE
            && l.head - l.boundaries == (if l.vars == 0 then 0 else l.vars - 1) * l.boundary
            && l.boundary in {1, 2}
            && (l.size.Fixed? ==> l.size.bytes == l.head)
            && forall i :: 0 <= i < |ms| && l.fields[i].AtSlot? ==> l.fields[i].at == l.bitmap + AtBytes(ms[..i])
  {
    TimesIsProduct(BoundaryCount(ms), BoundaryWidth(ms));
    forall i | 0 <= i < |ms|
      ensures AtBytes(ms[..i]) <= AtBytes(ms)
    {
      PrefixSums(ms, i);
    }
  }

  lemma {:induction false} NoVars(ms: seq<Member>)
    requires forall i :: 0 <= i < |ms| ==> !ms[i].IsOptional() && !ms[i].IsVar()
    ensures Vars(ms) == 0 && OptionalBytes(ms) == 0 && VarMax(ms) == Some(0)
  {
    if ms != [] {
      NoVars(ms[..|ms| - 1]);
    }
  }

  /** An object without a field that varies takes no boundary. */
  lemma {:induction false} FixedHead(ms: seq<Member>)
    requires !Varies(ms)
    ensures Vars(ms) == 0 && OptionalBytes(ms) == 0 && Head(ms) == Boundaries(ms)
  {
    NoVars(ms);
  }
}
