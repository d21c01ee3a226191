/** The encodings the wire format documents byte by byte: an object, a patch, and a union. */
module WireExamples {
  import opened Wrappers
  import opened Bytes
  import opened Layouts
  import opened Objects
  import opened Sequences
  import opened Scalars
  import opened Types
  import opened Codec

  // ----- sums over a field more

  lemma {:induction false} OneMore(ms: seq<Member>, m: Member)
    ensures var more := ms + [m];
            && Bits(more) == Bits(ms) + m.Bits()
            && AtBytes(more) == AtBytes(ms) + (if m.IsAt() then m.size.bytes else 0)
            && OptionalBytes(more) == OptionalBytes(ms) + (if m.IsOptional() then m.size.bytes else 0)
            && Vars(more) == Vars(ms) + (if m.IsVar() then 1 else 0)
            && VarMax(more) == if !m.IsVar() then VarMax(ms)
                               else if VarMax(ms).Some? && m.size.max.Some? then Some(VarMax(ms).value + m.size.max.value)
                               else None
  {
    assert (ms + [m])[..|ms|] == ms;
  }

  lemma {:induction false} OneMoreChunk(ms: seq<Member>, m: Member, ps: seq<Part>, p: Part)
    requires |ms| == |ps|
    ensures VarChunks(ms + [m], ps + [p]) == VarChunks(ms, ps) + if m.IsVar() then [ChunkBytes(p)] else []
  {
    assert (ms + [m])[..|ms|] == ms && (ps + [p])[..|ps|] == ps;
  }

  lemma {:induction false} FlatTwo<T>(a: seq<T>, b: seq<T>)
    ensures Flat([a]) == a && Flat([a, b]) == a + b
  {
    assert Flat<T>([]) == [];
    FlatAdd([], a);
    FlatAdd([a], b);
    assert [] + [a] == [a] && [a] + [b] == [a, b] && [] + a == a;
  }

  lemma {:induction false} FlatThree<T>(a: seq<T>, b: seq<T>, c: seq<T>)
    ensures Flat([a, b, c]) == a + b + c
  {
    FlatTwo(a, b);
    FlatAdd([a, b], c);
    assert [a, b] + [c] == [a, b, c];
  }

  // ----- a request: a biased integer, a string, and a list of strings

  function Foo(): Type {
    Atomic(Int(I32, Some(-100), Some(100)))
  }

  function Address(): Type {
    Blob(true, Lengths(None, Some(16)))
  }

  function Addresses(): Type {
    Collection(VecKind, Address(), Lengths(None, Some(14)))
  }

  function Name(): Type {
    Blob(true, Lengths(Some(2), Some(12)))
  }

  function Request(): Type {
    Struct([Field(Foo(), false), Field(Name(), false), Field(Addresses(), false)])
  }

  /** 7, named "bob", with the addresses "a" and "bc". */
  function RequestValue(): Value {
    Object([Some(Leaf(AInt(7))), Some(Raw([0x62, 0x6f, 0x62])), Some(Items([Raw([0x61]), Raw([0x62, 0x63])]))])
  }

  lemma {:induction false} PartSizes()
    ensures Wf(Foo()) && Wf(Name()) && Wf(Addresses())
    ensures SizeOf(Foo()) == Fixed(1) && SizeOf(Name()) == Var(Some(12)) && SizeOf(Addresses()) == Var(Some(238))
    ensures SequenceOf(SizeOf(Address()), Lengths(None, Some(14))) == Prefixed(1, 1)
  {
  }

  function RequestMembers(): seq<Member> {
    [Member(false, false, Fixed(1)), Member(false, false, Var(Some(12))), Member(false, false, Var(Some(238)))]
  }

  function RequestParts(): seq<Part> {
    [Plain([0x6b]), Chunk(Some([0x62, 0x6f, 0x62])), Chunk(Some([0x02, 0x01, 0x61, 0x62, 0x63]))]
  }

  lemma {:induction false} NoMembers()
    ensures Bits([]) == 0 && AtBytes([]) == 0 && OptionalBytes([]) == 0 && Vars([]) == 0 && VarMax([]) == Some(0)
    ensures VarChunks([], []) == []
  {
  }

  lemma {:induction false} RequestSums()
    ensures var ms := RequestMembers();
            Bits(ms) == 0 && AtBytes(ms) == 1 && OptionalBytes(ms) == 0 && Vars(ms) == 2 && VarMax(ms) == Some(250) && Varies(ms)
  {
    var ms := RequestMembers();
    NoMembers();
    hide Bits, AtBytes, OptionalBytes, Vars, VarMax;
    OneMore(ms[..0], ms[0]);
    OneMore(ms[..1], ms[1]);
    OneMore(ms[..2], ms[2]);
    assert ms[..0] == [] && ms[..1] == ms[..0] + [ms[0]] && ms[..2] == ms[..1] + [ms[1]] && ms == ms[..2] + [ms[2]];
    assert ms[1].IsVar();
  }

  lemma {:induction false} RequestLayout()
    ensures var ms := RequestMembers();
            && Boundaries(ms) == 1 && BoundaryCount(ms) == 1 && BoundaryWidth(ms) == 1 && Head(ms) == 2 && Bits(ms) == 0
            && ObjectSize(ms) == Var(Some(252))
  {
    RequestSums();
    hide Bits, AtBytes, OptionalBytes, Vars, VarMax, RequestMembers;
    assert Times(1, 1) == Times(0, 1) + 1;
  }

  lemma {:induction false} RequestChunks()
    ensures VarChunks(RequestMembers(), RequestParts()) == [[0x62, 0x6f, 0x62], [0x02, 0x01, 0x61, 0x62, 0x63]]
  {
    var ms, ps := RequestMembers(), RequestParts();
    NoMembers();
    hide VarChunks;
    assert ms[..0] == [] && ms[..1] == ms[..0] + [ms[0]] && ms[..2] == ms[..1] + [ms[1]] && ms == ms[..2] + [ms[2]];
    assert ps[..0] == [] && ps[..1] == ps[..0] + [ps[0]] && ps[..2] == ps[..1] + [ps[1]] && ps == ps[..2] + [ps[2]];
    OneMoreChunk(ms[..0], ms[0], ps[..0], ps[0]);
    OneMoreChunk(ms[..1], ms[1], ps[..1], ps[1]);
    OneMoreChunk(ms[..2], ms[2], ps[..2], ps[2]);
  }

  lemma {:induction false} RequestSections()
    ensures PartsFit(RequestMembers(), RequestParts())
    ensures Flat(PlainPieces(RequestMembers(), RequestParts())) == [0x6b]
    ensures Flat(OptionalPieces(RequestMembers(), RequestParts())) == []
    ensures BitSection(RequestMembers(), RequestParts()) == []
  {
    var ms, ps := RequestMembers(), RequestParts();
    assert PlainPieces(ms, ps) == [[0x6b], [], []] && OptionalPieces(ms, ps) == [[], [], []];
    FlatThree<byte>([0x6b], [], []);
    FlatThree<byte>([], [], []);
    RequestLayout();
  }

  lemma {:induction false} OneByte(n: byte)
    ensures Le(1, n as int) == [n]
  {
    assert Le(1, n as int) == [n] + Le(0, 0);
  }

  /** One boundary, of one byte. */
  lemma {:induction false} OneBoundary(start: nat, chunks: seq<seq<byte>>, end: byte)
    requires |chunks| == 2 && start + |chunks[0]| == end as int
    ensures BoundaryBytes(start, 1, chunks, 1) == [end]
  {
    FlatTwo(chunks[0], chunks[1]);
    assert chunks[..1] == [chunks[0]];
    assert EndOf(start, chunks, 0) == end as int;
    OneByte(end);
    assert BoundaryBytes(start, 1, chunks, 0) == [];
  }

  lemma {:induction false} RequestAssembled()
    ensures PartsFit(RequestMembers(), RequestParts())
    ensures Assemble(RequestMembers(), RequestParts()) == [0x6b, 0x05, 0x62, 0x6f, 0x62, 0x02, 0x01, 0x61, 0x62, 0x63]
  {
    var ms, ps := RequestMembers(), RequestParts();
    RequestLayout();
    RequestChunks();
    RequestSections();
    hide RequestMembers, RequestParts, PartsFit, VarChunks, PlainPieces, OptionalPieces, BitSection, BoundaryBytes, Flat, Head,
      BoundaryCount, BoundaryWidth;
    OneBoundary(2, VarChunks(ms, ps), 5);
    FlatTwo<byte>([0x62, 0x6f, 0x62], [0x02, 0x01, 0x61, 0x62, 0x63]);
  }

  lemma {:induction false} AsciiUtf8(b: seq<byte>)
    requires forall i :: 0 <= i < |b| ==> b[i] < 0x80
    ensures Utf8(b)
    decreases |b|
  {
    if b != [] {
      assert CharLength(b) == 1;
      AsciiUtf8(b[1..]);
    }
  }

  lemma {:induction false} FooEncodes()
    ensures var v := Leaf(AInt(7)); Encodable(Foo(), v) && Meets(Foo(), v) && Enc(Foo(), v) == [0x6b]
  {
    PowValues();
    assert Le(1, 107) == [107] + Le(0, 0);
  }

  lemma {:induction false} NameEncodes()
    ensures var v := Raw([0x62, 0x6f, 0x62]); Encodable(Name(), v) && Meets(Name(), v) && Enc(Name(), v) == [0x62, 0x6f, 0x62]
  {
    AsciiUtf8([0x62, 0x6f, 0x62]);
  }

  lemma {:induction false} JoinTwo(a: seq<byte>, b: seq<byte>)
    requires |a| < 256
    ensures JoinItems([a, b], 1) == [|a|] + a + b
  {
    assert [a, b][1..] == [b];
    OneByte(|a|);
  }

  lemma {:induction false} PrefixedBytes(ty: Type, vs: seq<Value>)
    requires ty.Collection? && Encodable(ty, Items(vs)) && SequenceOf(SizeOf(ty.element), ty.lengths) == Prefixed(1, 1)
    ensures Wf(ty.element) && forall i :: 0 <= i < |vs| ==> Encodable(ty.element, vs[i])
    ensures Enc(ty, Items(vs)) == Le(1, |vs|) + JoinItems(EncAll(ty.element, vs), 1)
  {
  }

  lemma {:induction false} AddressesTyped(vs: seq<Value>)
    requires vs == [Raw([0x61]), Raw([0x62, 0x63])]
    ensures Encodable(Addresses(), Items(vs)) && Meets(Addresses(), Items(vs))
    ensures Encodable(Address(), vs[0]) && Encodable(Address(), vs[1])
  {
    AsciiUtf8([0x61]);
    AsciiUtf8([0x62, 0x63]);
    PartSizes();
    hide SizeOf, Utf8;
  }

  lemma {:induction false} AddressesEncode()
    ensures var v := Items([Raw([0x61]), Raw([0x62, 0x63])]);
            Encodable(Addresses(), v) && Meets(Addresses(), v) && Enc(Addresses(), v) == [0x02, 0x01, 0x61, 0x62, 0x63]
  {
    var vs := [Raw([0x61]), Raw([0x62, 0x63])];
    AddressesTyped(vs);
    PartSizes();
    PrefixedBytes(Addresses(), vs);
    assert EncAll(Address(), vs) == [[0x61], [0x62, 0x63]];
    JoinTwo([0x61], [0x62, 0x63]);
    OneByte(2);
    hide Enc, EncAll, Encodable, Meets, JoinItems, Le, SizeOf, SequenceOf;
  }

  /** The documented request is 10 bytes, with a one-byte boundary. */
  lemma {:induction false} RequestEncodes()
    ensures Encodable(Request(), RequestValue()) && Meets(Request(), RequestValue())
    ensures Enc(Request(), RequestValue()) == [0x6b, 0x05, 0x62, 0x6f, 0x62, 0x02, 0x01, 0x61, 0x62, 0x63]
  {
    RequestLayout();
    RequestAssembled();
    hide FieldIs, Assemble, PartsFit, Encodable, Meets, Enc, Head;
    forall i: nat | i < 3 ensures FieldIs(Request().fields[i], RequestValue().fields[i], RequestMembers()[i], RequestParts()[i]) {
      RequestPart(i);
    }
    StructEncodes(Request().fields, RequestValue().fields, RequestMembers(), RequestParts());
  }

  /** A field whose value meets its constraints is laid out as `m`, and its value as `p`. */
  predicate FieldIs(field: Field, o: Option<Value>, m: Member, p: Part) {
    && Wf(field.ty) && Good(field.ty) && !field.ty.Pair?
    && FieldTyped(field, o) && FieldMeets(field, o, true) && FieldMeets(field, o, false)
    && MemberOf(field) == m && PartOf(field, o) == p
  }

  lemma {:induction false} RequestPart(i: nat)
    requires i < 3
    ensures FieldIs(Request().fields[i], RequestValue().fields[i], RequestMembers()[i], RequestParts()[i])
  {
    PartSizes();
    FooEncodes();
    NameEncodes();
    AddressesEncode();
    hide SizeOf, Enc, Encodable, Meets, Typed, Checks, Wf, Good, MemberOf, PartOf, FieldTyped, FieldMeets;
    OnePart(Request().fields[i], RequestValue().fields[i]);
  }

  /** One field, from what its value encodes to. */
  lemma {:induction false} OnePart(field: Field, o: Option<Value>)
    requires o.Some? && !field.optional && Encodable(field.ty, o.value) && Meets(field.ty, o.value)
    requires !IsFlag(field.ty) && !field.ty.Pair?
    ensures Wf(field.ty) && Good(field.ty) && FieldTyped(field, o) && FieldMeets(field, o, true) && FieldMeets(field, o, false)
    ensures MemberOf(field) == Member(false, false, SizeOf(field.ty))
    ensures PartOf(field, o) == if SizeOf(field.ty).Fixed? then Plain(Enc(field.ty, o.value)) else Chunk(Some(Enc(field.ty, o.value)))
  {
  }

  lemma {:induction false} StructEncodes(fields: seq<Field>, os: seq<Option<Value>>, ms: seq<Member>, ps: seq<Part>)
    requires |fields| == |os| == |ms| == |ps| && PartsFit(ms, ps) && Head(ms) <= MAX_SIZE
    requires forall i :: 0 <= i < |fields| ==> FieldIs(fields[i], os[i], ms[i], ps[i])
    ensures Encodable(Struct(fields), Object(os)) && Meets(Struct(fields), Object(os))
    ensures Enc(Struct(fields), Object(os)) == Assemble(ms, ps)
  {
    hide Assemble, Head, PartOf, MemberOf;
    assert Members(fields) == ms;
    assert Encodable(Struct(fields), Object(os));
    assert Parts(fields, os) == ps;
  }

  // ----- a patch: a sparse object

  function Unsigned(kind: IntKind): Type {
    Atomic(Int(kind, None, None))
  }

  lemma {:induction false} NumberEncodes(kind: IntKind, n: nat)
    requires !kind.Signed() && n <= kind.Highest()
    ensures var ty, v := Unsigned(kind), Leaf(AInt(n));
            && SizeOf(ty) == Fixed(kind.Width()) && !IsFlag(ty)
            && Encodable(ty, v) && Meets(ty, v) && Enc(ty, v) == Le(kind.Width(), n)
  {
    PowValues();
    WidthLeast(kind.Highest(), kind.Width());
  }

  lemma {:induction false} SomePart(field: Field, o: Option<Value>)
    requires o.Some? && field.optional && Encodable(field.ty, o.value) && Meets(field.ty, o.value)
    requires !IsFlag(field.ty) && !field.ty.Pair?
    ensures FieldIs(field, o, Member(true, false, SizeOf(field.ty)), Chunk(Some(Enc(field.ty, o.value))))
  {
  }

  lemma {:induction false} NonePart(field: Field)
    requires field.optional && Wf(field.ty) && Good(field.ty) && !IsFlag(field.ty) && !field.ty.Pair?
    ensures FieldIs(field, None, Member(true, false, SizeOf(field.ty)), Chunk(None))
  {
  }

  function Patch(): Type {
    Struct([Field(Unsigned(U16), true), Field(Unsigned(U16), true), Field(Atomic(Bool), true), Field(Unsigned(U8), true)])
  }

  /** Only the first number, 500, and the flag, set. */
  function PatchValue(): Value {
    Object([Some(Leaf(AInt(500))), None, Some(Leaf(ABool(true))), None])
  }

  function PatchMembers(): seq<Member> {
    [Member(true, false, Fixed(2)), Member(true, false, Fixed(2)), Member(true, true, Fixed(1)), Member(true, false, Fixed(1))]
  }

  function PatchParts(): seq<Part> {
    [Chunk(Some([0xf4, 0x01])), Chunk(None), MaybeFlag(Some(true)), Chunk(None)]
  }

  lemma {:induction false} OptionalNumber(kind: IntKind, n: nat)
    requires !kind.Signed() && n <= kind.Highest()
    ensures FieldIs(Field(Unsigned(kind), true), Some(Leaf(AInt(n))), Member(true, false, Fixed(kind.Width())), Chunk(Some(Le(kind.Width(), n))))
  {
    NumberEncodes(kind, n);
    NotPair(kind);
    hide Encodable, Meets, Enc, Le, SizeOf, FieldIs, Unsigned, IsFlag;
    SomePart(Field(Unsigned(kind), true), Some(Leaf(AInt(n))));
  }

  lemma {:induction false} RequiredNumber(kind: IntKind, n: nat)
    requires !kind.Signed() && n <= kind.Highest()
    ensures FieldIs(Field(Unsigned(kind), false), Some(Leaf(AInt(n))), Member(false, false, Fixed(kind.Width())), Plain(Le(kind.Width(), n)))
  {
    NumberEncodes(kind, n);
    NotPair(kind);
    hide Encodable, Meets, Enc, Le, SizeOf, Unsigned, IsFlag, Wf, Good, FieldTyped, FieldMeets, MemberOf, PartOf;
    OnePart(Field(Unsigned(kind), false), Some(Leaf(AInt(n))));
  }

  lemma {:induction false} Bytes500()
    ensures Le(2, 500) == [0xf4, 0x01]
  {
    assert Le(2, 500) == [0xf4] + Le(1, 1);
    OneByte(1);
  }

  lemma {:induction false} Bytes7()
    ensures Le(4, 7) == [7, 0, 0, 0]
  {
    assert Le(4, 7) == [7] + Le(3, 0) && Le(3, 0) == [0] + Le(2, 0) && Le(2, 0) == [0] + Le(1, 0);
    OneByte(0);
  }

  lemma {:induction false} NotPair(kind: IntKind)
    ensures !Unsigned(kind).Pair?
  {
  }

  lemma {:induction false} PatchNone(kind: IntKind)
    requires !kind.Signed()
    ensures FieldIs(Field(Unsigned(kind), true), None, Member(true, false, Fixed(kind.Width())), Chunk(None))
  {
    NumberEncodes(kind, 0);
    NotPair(kind);
    NonePart(Field(Unsigned(kind), true));
  }

  lemma {:induction false} PatchFlag()
    ensures FieldIs(Field(Atomic(Bool), true), Some(Leaf(ABool(true))), Member(true, true, Fixed(1)), MaybeFlag(Some(true)))
  {
    var field, o := Field(Atomic(Bool), true), Some(Leaf(ABool(true)));
    assert SizeOf(field.ty) == Fixed(1) && IsFlag(field.ty) && Wf(field.ty) && Good(field.ty);
    assert Typed(field.ty, o.value) && FlagOf(field.ty, o.value);
    assert FieldMeets(field, o, true) && FieldMeets(field, o, false);
    hide SizeOf, IsFlag, Wf, Good, Typed, FlagOf, Enc, FieldTyped, FieldMeets;
  }

  lemma {:induction false} PatchPart(i: nat)
    requires i < 4
    ensures FieldIs(Patch().fields[i], PatchValue().fields[i], PatchMembers()[i], PatchParts()[i])
  {
    Bytes500();
    hide FieldIs, Le, Unsigned;
    PowValues();
    OptionalNumber(U16, 500);
    PatchNone(U16);
    PatchFlag();
    PatchNone(U8);
  }

  lemma {:induction false} PatchSums()
    ensures var ms := PatchMembers(); Bits(ms) == 5 && AtBytes(ms) == 0 && Vars(ms) == 0
  {
    var ms := PatchMembers();
    NoMembers();
    hide Bits, AtBytes, OptionalBytes, Vars, VarMax;
    OneMore(ms[..0], ms[0]);
    OneMore(ms[..1], ms[1]);
    OneMore(ms[..2], ms[2]);
    OneMore(ms[..3], ms[3]);
    assert ms[..0] == [] && ms[..1] == ms[..0] + [ms[0]] && ms[..2] == ms[..1] + [ms[1]] && ms[..3] == ms[..2] + [ms[2]];
    assert ms == ms[..3] + [ms[3]];
  }

  lemma {:induction false} PatchHead()
    ensures var ms := PatchMembers(); Bitmap(ms) == 1 && BoundaryCount(ms) == 0 && Head(ms) == 1
  {
    PatchSums();
    hide Bits, AtBytes, Vars, PatchMembers, BoundaryWidth;
  }

  lemma {:induction false} FlatFour<T>(a: seq<T>, b: seq<T>, c: seq<T>, d: seq<T>)
    ensures Flat([a, b, c, d]) == a + b + c + d
  {
    FlatThree(a, b, c);
    FlatAdd([a, b, c], d);
    assert [a, b, c] + [d] == [a, b, c, d];
  }

  lemma {:induction false} PatchByte()
    ensures PackBits([true, false, true, true, false]) == [0x0d]
  {
    var bits := [true, false, true, true, false];
    assert bits[1..] == [false, true, true, false] && bits[1..][1..] == [true, true, false];
    assert PackByte([false]) == 0 + 2 * PackByte([]) && [false][1..] == [];
    assert PackByte([true, false]) == 1 && [true, false][1..] == [false];
    assert PackByte([true, true, false]) == 3 && [true, true, false][1..] == [true, false];
    assert PackByte([false, true, true, false]) == 6 && [false, true, true, false][1..] == [true, true, false];
  }

  lemma {:induction false} PatchBits()
    ensures PartsFit(PatchMembers(), PatchParts())
    ensures Flat(BitPieces(PatchMembers(), PatchParts())) == [true, false, true, true, false]
  {
    assert BitPieces(PatchMembers(), PatchParts()) == [[true], [false], [true, true], [false]];
    FlatFour([true], [false], [true, true], [false]);
  }

  lemma {:induction false} PatchSections()
    ensures Flat(PlainPieces(PatchMembers(), PatchParts())) == []
    ensures Flat(OptionalPieces(PatchMembers(), PatchParts())) == [0xf4, 0x01]
  {
    var ms, ps := PatchMembers(), PatchParts();
    assert PlainPieces(ms, ps) == [[], [], [], []] && OptionalPieces(ms, ps) == [[0xf4, 0x01], [], [], []];
    hide PatchMembers, PatchParts, PlainPieces, OptionalPieces;
    FlatFour<byte>([], [], [], []);
    FlatFour<byte>([0xf4, 0x01], [], [], []);
  }

  lemma {:induction false} PatchAssembled()
    ensures PartsFit(PatchMembers(), PatchParts())
    ensures Assemble(PatchMembers(), PatchParts()) == [0x0d, 0xf4, 0x01]
  {
    var ms, ps := PatchMembers(), PatchParts();
    PatchBits();
    PatchSections();
    PatchSums();
    PatchHead();
    PatchByte();
    assert VarChunks(ms, ps) == [];
    assert Flat(VarChunks(ms, ps)) == [];
    hide PatchMembers, PatchParts, PartsFit, VarChunks, PlainPieces, OptionalPieces, BitPieces, Flat, Head, PackBits, BoundaryWidth;
    assert BoundaryBytes(VarStart(ms, ps), BoundaryWidth(ms), VarChunks(ms, ps), 0) == [];
  }

  /** The documented patch is 3 bytes: a bitmap and the one number present. */
  lemma {:induction false} PatchEncodes()
    ensures Encodable(Patch(), PatchValue()) && Meets(Patch(), PatchValue())
    ensures Enc(Patch(), PatchValue()) == [0x0d, 0xf4, 0x01]
  {
    PatchHead();
    PatchAssembled();
    hide FieldIs, Assemble, PartsFit, Encodable, Meets, Enc, Head;
    forall i: nat | i < 4 ensures FieldIs(Patch().fields[i], PatchValue().fields[i], PatchMembers()[i], PatchParts()[i]) {
      PatchPart(i);
    }
    StructEncodes(Patch().fields, PatchValue().fields, PatchMembers(), PatchParts());
  }

  // ----- an operation: a union

  function Added(): Type {
    Struct([Field(Unsigned(U32), false), Field(Unsigned(U8), false)])
  }

  function Operation(): Type {
    Union([Data(Added()), Data(Unsigned(U8)), Unit])
  }

  /** Item 7 in slot 2. */
  function AddedValue(): Value {
    Object([Some(Leaf(AInt(7))), Some(Leaf(AInt(2)))])
  }

  lemma {:induction false} AddedPart(i: nat)
    requires i < 2
    ensures FieldIs(Added().fields[i], AddedValue().fields[i],
                    [Member(false, false, Fixed(4)), Member(false, false, Fixed(1))][i], [Plain([7, 0, 0, 0]), Plain([2])][i])
  {
    Bytes7();
    OneByte(2);
    hide FieldIs, Le, Unsigned;
    PowValues();
    RequiredNumber(U32, 7);
    RequiredNumber(U8, 2);
  }

  lemma {:induction false} AddedAssembled(ms: seq<Member>, ps: seq<Part>)
    requires ms == [Member(false, false, Fixed(4)), Member(false, false, Fixed(1))] && ps == [Plain([7, 0, 0, 0]), Plain([2])]
    ensures PartsFit(ms, ps) && Head(ms) == 5 && Assemble(ms, ps) == [7, 0, 0, 0, 2]
  {
    assert Bits(ms) == 0 && AtBytes(ms) == 5 && Vars(ms) == 0 by {
      NoMembers();
      OneMore(ms[..0], ms[0]);
      OneMore(ms[..1], ms[1]);
      assert ms[..0] == [] && ms[..1] == ms[..0] + [ms[0]] && ms == ms[..1] + [ms[1]];
    }
    hide Bits, AtBytes, Vars, BoundaryWidth;
    assert PlainPieces(ms, ps) == [[7, 0, 0, 0], [2]] && OptionalPieces(ms, ps) == [[], []];
    FlatTwo<byte>([7, 0, 0, 0], [2]);
    FlatTwo<byte>([], []);
    BitSectionSize(ms, ps);
    assert VarChunks(ms, ps) == [] && Flat(VarChunks(ms, ps)) == [];
    assert BitSection(ms, ps) == [];
    assert BoundaryBytes(VarStart(ms, ps), BoundaryWidth(ms), VarChunks(ms, ps), 0) == [];
  }

  lemma {:induction false} AddedEncodes()
    ensures Encodable(Added(), AddedValue()) && Meets(Added(), AddedValue())
    ensures Enc(Added(), AddedValue()) == [7, 0, 0, 0, 2]
  {
    var ms, ps := [Member(false, false, Fixed(4)), Member(false, false, Fixed(1))], [Plain([7, 0, 0, 0]), Plain([2])];
    AddedAssembled(ms, ps);
    hide FieldIs, Assemble, PartsFit, Encodable, Meets, Enc, Head;
    forall i: nat | i < 2 ensures FieldIs(Added().fields[i], AddedValue().fields[i], ms[i], ps[i]) {
      AddedPart(i);
    }
    StructEncodes(Added().fields, AddedValue().fields, ms, ps);
  }

  /** The value of a union, from that of its variant. */
  lemma {:induction false} ChoiceEncodes(index: nat, data: Option<Value>)
    requires index < 3 && (data.Some? <==> Operation().variants[index].Data?)
    requires data.Some? ==> var ty := Operation().variants[index].ty; Encodable(ty, data.value) && Meets(ty, data.value)
    requires Wf(Added()) && Good(Added())
    ensures Encodable(Operation(), Choice(index, data)) && Meets(Operation(), Choice(index, data))
    ensures Enc(Operation(), Choice(index, data)) ==
              [index + 1] + if data.None? then [] else Enc(Operation().variants[index].ty, data.value)
  {
    VariantOk(Operation().variants[index], data);
    OperationFine();
    OneByte(index + 1);
    hide SizeOf, Enc, VariantTyped, VariantMeets, VariantBytes, Encodable, Meets, Added, Unsigned, Le, Wf, Good;
    UnionEncodes(Operation().variants, index, data);
  }

  lemma {:induction false} OperationFine()
    requires Wf(Added()) && Good(Added())
    ensures Wf(Operation()) && Good(Operation())
  {
    hide SizeOf;
  }

  lemma {:induction false} UnionEncodes(variants: seq<Variant>, index: nat, data: Option<Value>)
    requires Wf(Union(variants)) && Good(Union(variants)) && index < |variants|
    requires VariantTyped(variants[index], data) && VariantMeets(variants[index], data, true) && VariantMeets(variants[index], data, false)
    ensures Encodable(Union(variants), Choice(index, data)) && Meets(Union(variants), Choice(index, data))
    ensures variants[index].Data? ==> Wf(variants[index].ty) && Good(variants[index].ty)
    ensures Enc(Union(variants), Choice(index, data)) == Le(TagWidth(|variants|), index + 1) + VariantBytes(variants[index], data)
  {
    hide SizeOf, VariantTyped, VariantMeets, Le;
  }

  lemma {:induction false} VariantOk(variant: Variant, data: Option<Value>)
    requires data.Some? <==> variant.Data?
    requires data.Some? ==> Encodable(variant.ty, data.value) && Meets(variant.ty, data.value)
    ensures VariantTyped(variant, data) && VariantMeets(variant, data, true) && VariantMeets(variant, data, false)
    ensures data.Some? ==> VariantBytes(variant, data) == Enc(variant.ty, data.value)
    ensures data.None? ==> VariantBytes(variant, data) == []
  {
  }

  lemma {:induction false} AddedFine()
    ensures Wf(Added()) && Good(Added())
  {
    AddedEncodes();
    hide Wf, Good, Added, AddedValue, Enc;
  }

  lemma {:induction false} AddEncodes()
    ensures var v := Choice(0, Some(AddedValue()));
            Encodable(Operation(), v) && Meets(Operation(), v) && Enc(Operation(), v) == [0x01, 0x07, 0x00, 0x00, 0x00, 0x02]
  {
    AddedEncodes();
    AddedFine();
    hide Encodable, Meets, Enc, Wf, Good, Added, AddedValue;
    ChoiceEncodes(0, Some(AddedValue()));
  }

  lemma {:induction false} RemoveEncodes()
    ensures var v := Choice(1, Some(Leaf(AInt(3))));
            Encodable(Operation(), v) && Meets(Operation(), v) && Enc(Operation(), v) == [0x02, 0x03]
  {
    AddedFine();
    NumberEncodes(U8, 3);
    OneByte(3);
    hide Encodable, Meets, Enc, Wf, Good, Added, Unsigned, Le;
    ChoiceEncodes(1, Some(Leaf(AInt(3))));
  }

  lemma {:induction false} ClearEncodes()
    ensures Encodable(Operation(), Choice(2, None)) && Meets(Operation(), Choice(2, None)) && Enc(Operation(), Choice(2, None)) == [0x03]
  {
    AddedFine();
    hide Encodable, Meets, Enc, Wf, Good, Added;
    ChoiceEncodes(2, None);
  }
}
