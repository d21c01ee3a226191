/**
 The encoding of an object from the encodings of its fields: bitmap, fixed fields, boundaries,
 present optionals, var section. `Assemble` is what the encoder writes; `ObjectValid` and
 `Extract` are what the validator checks and where the view's accessors look.
 */
module Objects {
  import opened Wrappers
  import opened Bytes
  import opened Layouts

  /** What a field gives the object: bits, or the bytes of its value. */
  datatype Part =
    | Flag(flag: bool)
    | MaybeFlag(maybe: Option<bool>)
    | Plain(bytes: seq<byte>)
    | Chunk(chunk: Option<seq<byte>>)

  predicate PartFits(m: Member, p: Part) {
    if m.flag then (if m.optional then p.MaybeFlag? else p.Flag?)
    else if m.size.Fixed? && !m.optional then p.Plain? && |p.bytes| == m.size.bytes
    else
      && p.Chunk?
      && (p.chunk.None? ==> m.optional)
      && (p.chunk.Some? && m.size.Fixed? ==> |p.chunk.value| == m.size.bytes)
  }

  predicate PartsFit(ms: seq<Member>, ps: seq<Part>) {
    |ms| == |ps| && forall i :: 0 <= i < |ms| ==> PartFits(ms[i], ps[i])
  }

  // ----- the sections, a piece per field

  function BitPiece(m: Member, p: Part): (bits: seq<bool>)
    requires PartFits(m, p)
    ensures |bits| == m.Bits()
  {
    match p
    case Flag(b) => [b]
    case MaybeFlag(o) => [o.Some?, o == Some(true)]
    case Plain(_) => []
    case Chunk(o) => if m.optional then [o.Some?] else []
  }

  function PlainPiece(m: Member, p: Part): seq<byte> {
    if p.Plain? then p.bytes else []
  }

  function ChunkBytes(p: Part): seq<byte> {
    if p.Chunk? then p.chunk.GetOr([]) else []
  }

  function OptionalPiece(m: Member, p: Part): seq<byte> {
    if m.IsOptional() then ChunkBytes(p) else []
  }

  function BitPieces(ms: seq<Member>, ps: seq<Part>): (r: seq<seq<bool>>)
    requires PartsFit(ms, ps)
    ensures |r| == |ms|
  {
    seq(|ms|, i requires 0 <= i < |ms| => BitPiece(ms[i], ps[i]))
  }

  function PlainPieces(ms: seq<Member>, ps: seq<Part>): (r: seq<seq<byte>>)
    requires |ms| == |ps|
    ensures |r| == |ms|
  {
    seq(|ms|, i requires 0 <= i < |ms| => PlainPiece(ms[i], ps[i]))
  }

  function OptionalPieces(ms: seq<Member>, ps: seq<Part>): (r: seq<seq<byte>>)
    requires |ms| == |ps|
    ensures |r| == |ms|
  {
    seq(|ms|, i requires 0 <= i < |ms| => OptionalPiece(ms[i], ps[i]))
  }

  /** The slots of the var section in order; an absent value's is empty. */
  function VarChunks(ms: seq<Member>, ps: seq<Part>): (r: seq<seq<byte>>)
    requires |ms| == |ps|
    ensures |r| == Vars(ms)
  {
    if ms == [] then []
    else
      var n := |ms| - 1;
      VarChunks(ms[..n], ps[..n]) + if ms[n].IsVar() then [ChunkBytes(ps[n])] else []
  }

  // ----- the var section's boundaries

  /** Where slot `k` ends, from the start of the object. */
  function EndOf(start: nat, chunks: seq<seq<byte>>, k: nat): nat
    requires k < |chunks|
  {
    start + |Flat(chunks[..k + 1])|
  }

  /** The first `n` boundaries, of `w` bytes each. */
  function BoundaryBytes(start: nat, w: nat, chunks: seq<seq<byte>>, n: nat): (r: seq<byte>)
    requires n <= |chunks|
    ensures |r| == Times(n, w)
  {
    if n == 0 then [] else BoundaryBytes(start, w, chunks, n - 1) + Le(w, EndOf(start, chunks, n - 1))
  }

  // ----- the object

  function BitSection(ms: seq<Member>, ps: seq<Part>): (r: seq<byte>)
    requires PartsFit(ms, ps)
    ensures |r| == Bitmap(ms)
  {
    BitSectionSize(ms, ps);
    PackBits(Flat(BitPieces(ms, ps)))
  }

  /** Where the var section starts: after the head and the optionals present. */
  function VarStart(ms: seq<Member>, ps: seq<Part>): nat
    requires |ms| == |ps|
  {
    Head(ms) + |Flat(OptionalPieces(ms, ps))|
  }

  function Assemble(ms: seq<Member>, ps: seq<Part>): seq<byte>
    requires PartsFit(ms, ps)
  {
    BitSection(ms, ps)
    + Flat(PlainPieces(ms, ps))
    + BoundaryBytes(VarStart(ms, ps), BoundaryWidth(ms), VarChunks(ms, ps), BoundaryCount(ms))
    + Flat(OptionalPieces(ms, ps))
    + Flat(VarChunks(ms, ps))
  }

  /** Every boundary fits its width. */
  predicate BoundariesFit(ms: seq<Member>, ps: seq<Part>)
    requires |ms| == |ps|
  {
    forall k :: 0 <= k < BoundaryCount(ms)
      ==> EndOf(VarStart(ms, ps), VarChunks(ms, ps), k) < Pow256(BoundaryWidth(ms))
  }

  lemma {:induction false} BitSectionSize(ms: seq<Member>, ps: seq<Part>)
    requires PartsFit(ms, ps)
    ensures |Flat(BitPieces(ms, ps))| == Bits(ms)
  {
    if ms != [] {
      var n := |ms| - 1;
      BitSectionSize(ms[..n], ps[..n]);
      assert BitPieces(ms, ps)[..n] == BitPieces(ms[..n], ps[..n]);
    }
  }

  lemma {:induction false} PlainSectionSize(ms: seq<Member>, ps: seq<Part>)
    requires PartsFit(ms, ps)
    ensures |Flat(PlainPieces(ms, ps))| == AtBytes(ms)
  {
    if ms != [] {
      var n := |ms| - 1;
      PlainSectionSize(ms[..n], ps[..n]);
      assert PlainPieces(ms, ps)[..n] == PlainPieces(ms[..n], ps[..n]);
    }
  }

  /** An object takes its head, its present optionals, and its var section. */
  lemma {:induction false} AssembledSize(ms: seq<Member>, ps: seq<Part>)
    requires PartsFit(ms, ps)
    ensures |Assemble(ms, ps)| == VarStart(ms, ps) + |Flat(VarChunks(ms, ps))|
  {
    PlainSectionSize(ms, ps);
  }

  // ----- the runtime's readers

  /** A length of `w` bytes at the start of `b`. */
  function ReadLen(b: seq<byte>, w: nat): nat
    requires w in {1, 2} && w <= |b|
  {
    if w == 1 then b[0] else b[0] as int + 256 * b[1] as int
  }

  lemma {:induction false} ReadLenIsLe(b: seq<byte>, w: nat)
    requires w in {1, 2} && w <= |b|
    ensures ReadLen(b, w) == LeVal(b[..w]) < Pow256(w)
    ensures Le(w, ReadLen(b, w)) == b[..w]
  {
    LeWrites(b[..w]);
    assert b[..w][1..] == b[1..w];
    assert w == 2 ==> b[1..w][1..] == [];
  }

  /** The boundary of `w` bytes at `at`. */
  function BoundAt(b: seq<byte>, at: nat, w: nat): nat
    requires w in {1, 2} && at + w <= |b|
  {
    ReadLen(b[at..], w)
  }

  lemma {:induction false} BoundAtLe(b: seq<byte>, at: nat, w: nat, value: nat)
    requires w in {1, 2} && at + w <= |b|
    requires b[at..at + w] == Le(w, value) && value < Pow256(w)
    ensures BoundAt(b, at, w) == value
  {
    ReadLenIsLe(b[at..], w);
    assert b[at..][..w] == b[at..at + w];
    LeReads(w, value);
  }

  predicate InBitmap(b: seq<byte>, optionals: seq<(nat, nat)>) {
    forall j :: 0 <= j < |optionals| ==> optionals[j].0 / 8 < |b|
  }

  /** The first `k` of `optionals` are laid out from `head`, the absent ones taking nothing; this is where they end. */
  function Offset(b: seq<byte>, head: nat, optionals: seq<(nat, nat)>, k: nat): nat
    requires k <= |optionals| && InBitmap(b, optionals)
  {
    if k == 0 then head
    else
      var (presence, size) := optionals[k - 1];
      Offset(b, head, optionals, k - 1) + if Bit(b, presence) then size else 0
  }

  /** Where slot `k` begins: `start` for the first, the boundary before it for the others. */
  function SlotBegin(b: seq<byte>, start: nat, bounds: nat, w: nat, k: nat): nat
    requires w in {1, 2} && (k > 0 ==> bounds + Times(k - 1, w) + w <= |b|)
  {
    if k == 0 then start else BoundAt(b, bounds + Times(k - 1, w), w)
  }

  /** Where slot `k` of `slots` ends: its boundary, or the end of `b` for the last. */
  function SlotEnd(b: seq<byte>, bounds: nat, w: nat, slots: nat, k: nat): nat
    requires w in {1, 2} && (k + 1 != slots ==> bounds + Times(k, w) + w <= |b|)
  {
    if k + 1 == slots then |b| else BoundAt(b, bounds + Times(k, w), w)
  }

  // ----- what the validator checks of an object, its fields' values aside

  /** The presence bit and size of each optional fixed-size field. */
  function Optionals(ms: seq<Member>): seq<(nat, nat)> {
    if ms == [] then []
    else
      var n := |ms| - 1;
      Optionals(ms[..n]) + if ms[n].IsOptional() then [(Bits(ms[..n]), ms[n].size.bytes)] else []
  }

  lemma {:induction false} OptionalsInBitmap(ms: seq<Member>, b: seq<byte>)
    requires (Bits(ms) + 7) / 8 <= |b|
    ensures InBitmap(b, Optionals(ms))
  {
    if ms != [] {
      OptionalsInBitmap(ms[..|ms| - 1], b);
    }
  }

  lemma {:induction false} OptionalsPrefix(ms: seq<Member>, i: nat)
    requires i <= |ms|
    ensures Optionals(ms[..i]) <= Optionals(ms)
  {
    if i < |ms| {
      OptionalsPrefix(ms[..|ms| - 1], i);
      assert ms[..|ms| - 1][..i] == ms[..i];
    } else {
      assert ms[..i] == ms;
    }
  }

  /** Where the optional value of field `i`, or the next one present, starts. */
  function Position(ms: seq<Member>, b: seq<byte>, i: nat): nat
    requires i <= |ms| && Head(ms) <= |b|
  {
    OptionalsInBitmap(ms, b);
    OptionalsPrefix(ms, i);
    Offset(b, Head(ms), Optionals(ms), |Optionals(ms[..i])|)
  }

  /** The bit of field `i` that is `j` past its first. */
  predicate FieldBit(ms: seq<Member>, b: seq<byte>, i: nat, j: nat)
    requires i < |ms| && j < ms[i].Bits() && Head(ms) <= |b|
  {
    PrefixStep(ms, i);
    Bit(b, Bits(ms[..i]) + j)
  }

  /** The bits past the last one claimed are clear. */
  predicate UnusedClear(ms: seq<Member>, b: seq<byte>)
    requires Head(ms) <= |b|
  {
    Bits(ms) % 8 != 0 ==> Shr(b[Bitmap(ms) - 1], Bits(ms) % 8) == 0
  }

  /** The first `n` boundaries never go back, nor past the bytes there are. */
  predicate BoundariesOrdered(b: seq<byte>, start: nat, bounds: nat, w: nat, n: nat)
    requires w in {1, 2} && bounds + Times(n, w) <= |b|
  {
    n > 0 ==>
      && BoundariesOrdered(b, start, bounds, w, n - 1)
      && (TimesMonotone(n - 1, n, w);
          SlotBegin(b, start, bounds, w, n - 1) <= BoundAt(b, bounds + Times(n - 1, w), w) <= |b|)
  }

  lemma {:induction false} OrderedAt(b: seq<byte>, start: nat, bounds: nat, w: nat, n: nat, k: nat)
    requires w in {1, 2} && bounds + Times(n, w) <= |b| && BoundariesOrdered(b, start, bounds, w, n) && k < n
    ensures bounds + Times(k, w) + w <= |b| && (k > 0 ==> bounds + Times(k - 1, w) + w <= |b|)
    ensures SlotBegin(b, start, bounds, w, k) <= BoundAt(b, bounds + Times(k, w), w) <= |b|
  {
    hide BoundAt;
    if k < n - 1 {
      OrderedAt(b, start, bounds, w, n - 1, k);
    }
  }

  function FieldBegin(ms: seq<Member>, b: seq<byte>, i: nat): nat
    requires i < |ms| && ms[i].IsVar() && Head(ms) <= |b|
  {
    PrefixStep(ms, i);
    var k := Vars(ms[..i]);
    TimesMonotone(k, BoundaryCount(ms), BoundaryWidth(ms));
    SlotBegin(b, Position(ms, b, |ms|), Boundaries(ms), BoundaryWidth(ms), k)
  }

  function FieldEnd(ms: seq<Member>, b: seq<byte>, i: nat): nat
    requires i < |ms| && ms[i].IsVar() && Head(ms) <= |b|
  {
    PrefixStep(ms, i);
    var k := Vars(ms[..i]);
    if k + 1 == Vars(ms) then |b|
    else
      TimesMonotone(k + 1, BoundaryCount(ms), BoundaryWidth(ms));
      SlotEnd(b, Boundaries(ms), BoundaryWidth(ms), Vars(ms), k)
  }

  predicate FlagsCanonical(ms: seq<Member>, b: seq<byte>)
    requires Head(ms) <= |b|
  {
    forall i :: 0 <= i < |ms| && ms[i].flag && ms[i].optional
      ==> FieldBit(ms, b, i, 0) || !FieldBit(ms, b, i, 1)
  }

  predicate AbsentEmpty(ms: seq<Member>, b: seq<byte>)
    requires Head(ms) <= |b|
  {
    forall i :: 0 <= i < |ms| && ms[i].IsVar() && ms[i].optional && !FieldBit(ms, b, i, 0)
      ==> FieldBegin(ms, b, i) == FieldEnd(ms, b, i)
  }

  predicate ObjectValid(ms: seq<Member>, b: seq<byte>) {
    && Head(ms) <= |b|
    && UnusedClear(ms, b)
    && FlagsCanonical(ms, b)
    && Position(ms, b, |ms|) <= |b|
    && (Vars(ms) == 0 ==> Position(ms, b, |ms|) == |b|)
    && BoundariesOrdered(b, Position(ms, b, |ms|), Boundaries(ms), BoundaryWidth(ms), BoundaryCount(ms))
    && AbsentEmpty(ms, b)
  }

  lemma {:induction false} ValidHead(ms: seq<Member>, b: seq<byte>)
    requires ObjectValid(ms, b)
    ensures Head(ms) <= |b|
  {
  }

  lemma {:induction false} HeadParts(ms: seq<Member>)
    ensures Bitmap(ms) <= Boundaries(ms) <= Head(ms)
  {
  }

  // ----- where the view's accessors look

  /** The slot of a var field is a range of a validated object. */
  lemma {:induction false} SlotSafe(ms: seq<Member>, b: seq<byte>, i: nat)
    requires i < |ms| && ms[i].IsVar() && ObjectValid(ms, b)
    ensures FieldBegin(ms, b, i) <= FieldEnd(ms, b, i) <= |b|
  {
    hide BoundAt, Position, BoundariesOrdered, UnusedClear, FlagsCanonical, AbsentEmpty;
    hide BoundaryWidth, Boundaries, Vars, Times;
    SlotStep(ms, i);
    var k, n, w := Vars(ms[..i]), BoundaryCount(ms), BoundaryWidth(ms);
    var start, bounds := Position(ms, b, |ms|), Boundaries(ms);
    if k > 0 {
      OrderedAt(b, start, bounds, w, n, k - 1);
    }
    if k < n {
      OrderedAt(b, start, bounds, w, n, k);
    } else {
      assert SlotBegin(b, start, bounds, w, k) <= |b|;
    }
  }

  /** The bytes of an optional value that is present are within a validated object. */
  lemma {:induction false} OptionalSafe(ms: seq<Member>, b: seq<byte>, i: nat)
    requires i < |ms| && ms[i].IsOptional() && ObjectValid(ms, b) && FieldBit(ms, b, i, 0)
    ensures Position(ms, b, i) + ms[i].size.bytes == Position(ms, b, i + 1) <= |b|
  {
    PositionStep(ms, b, i);
    PositionMonotone(ms, b, i + 1);
  }

  lemma {:induction false} PositionStep(ms: seq<Member>, b: seq<byte>, i: nat)
    requires i < |ms| && Head(ms) <= |b|
    ensures Position(ms, b, i + 1) == Position(ms, b, i)
            + if ms[i].IsOptional() && FieldBit(ms, b, i, 0) then ms[i].size.bytes else 0
  {
    OptionalsPrefix(ms, i + 1);
    OptionalsInBitmap(ms, b);
    assert ms[..i + 1][..i] == ms[..i];
  }

  lemma {:induction false} PositionMonotone(ms: seq<Member>, b: seq<byte>, i: nat)
    requires i <= |ms| && Head(ms) <= |b|
    ensures Head(ms) <= Position(ms, b, i) <= Position(ms, b, |ms|)
    decreases |ms| - i
  {
    assert ms[..|ms|] == ms;
    if i < |ms| {
      PositionMonotone(ms, b, i + 1);
      PositionStep(ms, b, i);
    }
    PositionFrom(ms, b, i);
  }

  lemma {:induction false} PositionFrom(ms: seq<Member>, b: seq<byte>, i: nat)
    requires i <= |ms| && Head(ms) <= |b|
    ensures Head(ms) <= Position(ms, b, i)
  {
    if i > 0 {
      PositionFrom(ms, b, i - 1);
      PositionStep(ms, b, i - 1);
    } else {
      assert ms[..0] == [];
    }
  }

  function ExtractAt(ms: seq<Member>, b: seq<byte>, i: nat): (r: seq<byte>)
    requires i < |ms| && ms[i].IsAt() && Head(ms) <= |b| && Head(ms) <= MAX_SIZE
    ensures |r| == ms[i].size.bytes
  {
    PrefixStep(ms, i);
    var at := SlotOf(ms, i).at;
    b[at..at + ms[i].size.bytes]
  }

  function ExtractOptional(ms: seq<Member>, b: seq<byte>, i: nat): (r: seq<byte>)
    requires i < |ms| && ms[i].IsOptional() && ObjectValid(ms, b) && FieldBit(ms, b, i, 0)
    ensures |r| == ms[i].size.bytes
  {
    OptionalSafe(ms, b, i);
    var at := Position(ms, b, i);
    b[at..at + ms[i].size.bytes]
  }

  function ExtractVar(ms: seq<Member>, b: seq<byte>, i: nat): seq<byte>
    requires i < |ms| && ms[i].IsVar() && ObjectValid(ms, b)
  {
    SlotSafe(ms, b, i);
    b[FieldBegin(ms, b, i)..FieldEnd(ms, b, i)]
  }

  /** What the view's accessor of field `i` finds. */
  function Extract(ms: seq<Member>, b: seq<byte>, i: nat): Part
    requires i < |ms| && ObjectValid(ms, b) && Head(ms) <= MAX_SIZE
  {
    var m := ms[i];
    if m.flag then
      if !m.optional then Flag(FieldBit(ms, b, i, 0))
      else MaybeFlag(if FieldBit(ms, b, i, 0) then Some(FieldBit(ms, b, i, 1)) else None)
    else if m.IsAt() then Plain(ExtractAt(ms, b, i))
    else if m.optional && !FieldBit(ms, b, i, 0) then Chunk(None)
    else if m.IsOptional() then Chunk(Some(ExtractOptional(ms, b, i)))
    else Chunk(Some(ExtractVar(ms, b, i)))
  }

  lemma {:induction false} ExtractFits(ms: seq<Member>, b: seq<byte>, i: nat)
    requires i < |ms| && ObjectValid(ms, b) && Head(ms) <= MAX_SIZE
    ensures PartFits(ms[i], Extract(ms, b, i))
  {
  }

  // ----- reading back what was assembled

  lemma {:induction false} AssembledBit(ms: seq<Member>, ps: seq<Part>, n: nat)
    requires PartsFit(ms, ps) && n < 8 * Bitmap(ms) && Head(ms) <= |Assemble(ms, ps)|
    ensures |Flat(BitPieces(ms, ps))| == Bits(ms)
    ensures Bit(Assemble(ms, ps), n) <==> n < Bits(ms) && Flat(BitPieces(ms, ps))[n]
  {
    BitSectionSize(ms, ps);
    PackBitsBit(Flat(BitPieces(ms, ps)), n);
    assert Assemble(ms, ps)[n / 8] == BitSection(ms, ps)[n / 8];
  }

  lemma {:induction false} AssembledFits(ms: seq<Member>, ps: seq<Part>)
    requires PartsFit(ms, ps)
    ensures Head(ms) <= |Assemble(ms, ps)|
  {
    AssembledSize(ms, ps);
  }

  lemma {:induction false} BitSectionUpTo(ms: seq<Member>, ps: seq<Part>, i: nat)
    requires PartsFit(ms, ps) && i < |ms|
    ensures |Flat(BitPieces(ms, ps)[..i])| == Bits(ms[..i])
    ensures BitPieces(ms, ps)[i] == BitPiece(ms[i], ps[i])
  {
    assert BitPieces(ms, ps)[..i] == BitPieces(ms[..i], ps[..i]);
    BitSectionSize(ms[..i], ps[..i]);
  }

  lemma {:induction false} SliceAt<T>(s: seq<T>, from: nat, to: nat, j: nat)
    requires from + j < to <= |s|
    ensures s[from..to][j] == s[from + j]
  {
  }

  lemma {:induction false} BitPieceAt(ms: seq<Member>, ps: seq<Part>, i: nat, j: nat)
    requires PartsFit(ms, ps) && i < |ms| && j < ms[i].Bits()
    ensures |Flat(BitPieces(ms, ps))| == Bits(ms) && Bits(ms[..i]) + j < Bits(ms)
    ensures Flat(BitPieces(ms, ps))[Bits(ms[..i]) + j] == BitPiece(ms[i], ps[i])[j]
  {
    hide BitPiece, BitPieces, Flat, Bits;
    var pieces, from := BitPieces(ms, ps), Bits(ms[..i]);
    BitSectionSize(ms, ps);
    PrefixStep(ms, i);
    FlatPiece(pieces, i);
    BitSectionUpTo(ms, ps, i);
    SliceAt(Flat(pieces), from, from + |pieces[i]|, j);
  }

  lemma {:induction false} FieldBitAssembled(ms: seq<Member>, ps: seq<Part>, i: nat, j: nat)
    requires PartsFit(ms, ps) && i < |ms| && j < ms[i].Bits() && Head(ms) <= |Assemble(ms, ps)|
    ensures FieldBit(ms, Assemble(ms, ps), i, j) == BitPiece(ms[i], ps[i])[j]
  {
    hide Assemble, Bit, BitPiece;
    BitPieceAt(ms, ps, i, j);
    AssembledBit(ms, ps, Bits(ms[..i]) + j);
  }

  /** Where bit `j` of the last byte is among all. */
  lemma {:induction false} UnusedPlace(bits: nat, j: nat)
    requires bits % 8 != 0 && bits % 8 <= j < 8
    ensures var n := 8 * ((bits + 7) / 8 - 1) + j;
            n >= bits && n / 8 == (bits + 7) / 8 - 1 && n % 8 == j && n < 8 * ((bits + 7) / 8)
  {
  }

  lemma {:induction false} UnusedBitAssembled(ms: seq<Member>, ps: seq<Part>, j: nat)
    requires PartsFit(ms, ps) && Head(ms) <= |Assemble(ms, ps)| && 0 < Bitmap(ms) <= |Assemble(ms, ps)|
    requires Bits(ms) % 8 != 0 && Bits(ms) % 8 <= j < 8
    ensures Shr(Assemble(ms, ps)[Bitmap(ms) - 1], j) % 2 == 0
  {
    hide Flat, Shr, Bits, BitPieces, PartsFit, Head, Assemble;
    UnusedPlace(Bits(ms), j);
    AssembledBit(ms, ps, 8 * (Bitmap(ms) - 1) + j);
  }

  lemma {:induction false} UnusedAssembled(ms: seq<Member>, ps: seq<Part>)
    requires PartsFit(ms, ps) && Head(ms) <= |Assemble(ms, ps)|
    ensures UnusedClear(ms, Assemble(ms, ps))
  {
    hide Shr, Bits, Assemble, PartsFit, Flat;
    HeadParts(ms);
    var k := Bits(ms) % 8;
    if k != 0 {
      var last := Assemble(ms, ps)[Bitmap(ms) - 1];
      forall j: nat | k <= j < 8
        ensures Shr(last, j) % 2 == 0
      {
        UnusedBitAssembled(ms, ps, j);
      }
      Pow2Eight();
      HighBitsClear(last, k, 8);
    }
  }

  lemma {:induction false} PlainPieceAt(ms: seq<Member>, ps: seq<Part>, i: nat)
    requires PartsFit(ms, ps) && i < |ms|
    ensures AtBytes(ms[..i]) <= AtBytes(ms[..i + 1]) <= |Flat(PlainPieces(ms, ps))|
    ensures Flat(PlainPieces(ms, ps))[AtBytes(ms[..i])..AtBytes(ms[..i + 1])] == PlainPiece(ms[i], ps[i])
  {
    var pieces := PlainPieces(ms, ps);
    FlatPiece(pieces, i);
    assert pieces[..i] == PlainPieces(ms[..i], ps[..i]);
    PlainSectionSize(ms[..i], ps[..i]);
    assert pieces[..i + 1] == PlainPieces(ms[..i + 1], ps[..i + 1]);
    PlainSectionSize(ms[..i + 1], ps[..i + 1]);
  }

  /** Where each of the five parts of an object is. */
  lemma {:induction false} FiveParts<T>(a: seq<T>, b: seq<T>, c: seq<T>, d: seq<T>, e: seq<T>)
    ensures var s, i, j, k := a + b + c + d + e, |a| + |b|, |a| + |b| + |c|, |a| + |b| + |c| + |d|;
            && s[|a|..i] == b && s[i..j] == c && s[j..k] == d && s[k..] == e
  {
  }

  lemma {:induction false} PartsAt(ms: seq<Member>, ps: seq<Part>)
    requires PartsFit(ms, ps)
    ensures var b, boundaries := Assemble(ms, ps), BoundaryBytes(VarStart(ms, ps), BoundaryWidth(ms), VarChunks(ms, ps), BoundaryCount(ms));
            && |boundaries| == Head(ms) - Boundaries(ms)
            && Bitmap(ms) <= Boundaries(ms) <= Head(ms) <= VarStart(ms, ps) <= |b|
            && b[Bitmap(ms)..Boundaries(ms)] == Flat(PlainPieces(ms, ps))
            && b[Boundaries(ms)..Head(ms)] == boundaries
            && b[Head(ms)..VarStart(ms, ps)] == Flat(OptionalPieces(ms, ps))
            && b[VarStart(ms, ps)..] == Flat(VarChunks(ms, ps))
  {
    hide Flat, BoundaryBytes, BitSection, PlainPieces, OptionalPieces, VarChunks, BoundaryWidth;
    PlainSectionSize(ms, ps);
    FiveParts(BitSection(ms, ps), Flat(PlainPieces(ms, ps)),
      BoundaryBytes(VarStart(ms, ps), BoundaryWidth(ms), VarChunks(ms, ps), BoundaryCount(ms)),
      Flat(OptionalPieces(ms, ps)), Flat(VarChunks(ms, ps)));
  }

  lemma {:induction false} PlainSectionAt(ms: seq<Member>, ps: seq<Part>)
    requires PartsFit(ms, ps)
    ensures var section := Flat(PlainPieces(ms, ps));
            && Bitmap(ms) + |section| == Boundaries(ms) <= |Assemble(ms, ps)|
            && Assemble(ms, ps)[Bitmap(ms)..Bitmap(ms) + |section|] == section
  {
    hide Assemble, Flat, Head, VarStart;
    PlainSectionSize(ms, ps);
    PartsAt(ms, ps);
  }

  lemma {:induction false} PlainBytes(ms: seq<Member>, ps: seq<Part>, i: nat)
    requires PartsFit(ms, ps) && i < |ms| && ms[i].IsAt()
    ensures PlainPiece(ms[i], ps[i]) == ps[i].bytes
  {
  }

  /** Where the layout puts a fixed field. */
  lemma {:induction false} AtRange(ms: seq<Member>, i: nat)
    requires i < |ms| && ms[i].IsAt() && Head(ms) <= MAX_SIZE
    ensures SlotOf(ms, i) == AtSlot(Bitmap(ms) + AtBytes(ms[..i]))
    ensures AtBytes(ms[..i + 1]) == AtBytes(ms[..i]) + ms[i].size.bytes
  {
    PrefixStep(ms, i);
  }

  lemma {:induction false} AtAssembled(ms: seq<Member>, ps: seq<Part>, i: nat)
    requires PartsFit(ms, ps) && i < |ms| && ms[i].IsAt() && Head(ms) <= MAX_SIZE && Head(ms) <= |Assemble(ms, ps)|
    ensures ExtractAt(ms, Assemble(ms, ps), i) == ps[i].bytes
  {
    hide Assemble, Flat, PlainPieces, Bitmap, AtBytes, PlainPiece;
    var pieces := PlainPieces(ms, ps);
    PlainPieceAt(ms, ps, i);
    PlainSectionAt(ms, ps);
    AtRange(ms, i);
    SectionSlice(Assemble(ms, ps), Bitmap(ms), Flat(pieces), AtBytes(ms[..i]), AtBytes(ms[..i + 1]));
    PlainBytes(ms, ps, i);
  }

  lemma {:induction false} PresenceAssembled(ms: seq<Member>, ps: seq<Part>, i: nat)
    requires PartsFit(ms, ps) && i < |ms| && ms[i].optional && !ms[i].flag && Head(ms) <= |Assemble(ms, ps)|
    ensures FieldBit(ms, Assemble(ms, ps), i, 0) == ps[i].chunk.Some?
  {
    FieldBitAssembled(ms, ps, i, 0);
  }

  lemma {:induction false} PositionStepAssembled(ms: seq<Member>, ps: seq<Part>, i: nat)
    requires PartsFit(ms, ps) && i < |ms| && Head(ms) <= |Assemble(ms, ps)|
    ensures Position(ms, Assemble(ms, ps), i + 1) == Position(ms, Assemble(ms, ps), i) + |OptionalPiece(ms[i], ps[i])|
  {
    PositionStep(ms, Assemble(ms, ps), i);
    if ms[i].IsOptional() {
      PresenceAssembled(ms, ps, i);
    }
  }

  lemma {:induction false} PositionFirst(ms: seq<Member>, b: seq<byte>)
    requires Head(ms) <= |b|
    ensures Position(ms, b, 0) == Head(ms)
  {
    assert ms[..0] == [];
  }

  lemma {:induction false} NoPieces<T>(pieces: seq<seq<T>>)
    ensures Flat(pieces[..0]) == []
  {
  }

  lemma {:induction false} PositionAssembled(ms: seq<Member>, ps: seq<Part>, i: nat)
    requires PartsFit(ms, ps) && i <= |ms| && Head(ms) <= |Assemble(ms, ps)|
    ensures Position(ms, Assemble(ms, ps), i) == Head(ms) + |Flat(OptionalPieces(ms, ps)[..i])|
  {
    hide Assemble, Position, OptionalPiece, Head, Flat;
    var b, pieces := Assemble(ms, ps), OptionalPieces(ms, ps);
    if i == 0 {
      PositionFirst(ms, b);
      NoPieces(pieces);
    } else {
      PositionAssembled(ms, ps, i - 1);
      PositionStepAssembled(ms, ps, i - 1);
      FlatStep(pieces, i - 1);
    }
  }

  lemma {:induction false} VarStartAssembled(ms: seq<Member>, ps: seq<Part>)
    requires PartsFit(ms, ps) && Head(ms) <= |Assemble(ms, ps)|
    ensures Position(ms, Assemble(ms, ps), |ms|) == VarStart(ms, ps) <= |Assemble(ms, ps)|
  {
    PositionAssembled(ms, ps, |ms|);
    assert OptionalPieces(ms, ps)[..|ms|] == OptionalPieces(ms, ps);
    AssembledSize(ms, ps);
  }

  lemma {:induction false} OptionalSectionAt(ms: seq<Member>, ps: seq<Part>)
    requires PartsFit(ms, ps)
    ensures var section := Flat(OptionalPieces(ms, ps));
            && Head(ms) + |section| == VarStart(ms, ps) <= |Assemble(ms, ps)|
            && Assemble(ms, ps)[Head(ms)..Head(ms) + |section|] == section
  {
    PartsAt(ms, ps);
    hide Assemble, Flat, Head, Boundaries;
  }

  lemma {:induction false} OptionalAssembled(ms: seq<Member>, ps: seq<Part>, i: nat)
    requires PartsFit(ms, ps) && i < |ms| && Head(ms) <= |Assemble(ms, ps)|
    requires ms[i].IsOptional() && ps[i].chunk.Some?
    ensures var at := Position(ms, Assemble(ms, ps), i);
            at + ms[i].size.bytes <= |Assemble(ms, ps)| && Assemble(ms, ps)[at..at + ms[i].size.bytes] == ps[i].chunk.value
  {
    hide Assemble, Position, Head, Flat, VarStart;
    var pieces := OptionalPieces(ms, ps);
    PositionAssembled(ms, ps, i);
    FlatPiece(pieces, i);
    OptionalSectionAt(ms, ps);
    SectionSlice(Assemble(ms, ps), Head(ms), Flat(pieces), |Flat(pieces[..i])|, |Flat(pieces[..i + 1])|);
  }

  lemma {:induction false} BoundaryBytesAt(start: nat, w: nat, chunks: seq<seq<byte>>, n: nat, k: nat)
    requires k < n <= |chunks|
    ensures Times(k, w) + w <= Times(n, w)
    ensures BoundaryBytes(start, w, chunks, n)[Times(k, w)..Times(k, w) + w] == Le(w, EndOf(start, chunks, k))
  {
    if k < n - 1 {
      BoundaryBytesAt(start, w, chunks, n - 1, k);
    }
  }

  lemma {:induction false} BoundarySectionAt(ms: seq<Member>, ps: seq<Part>)
    requires PartsFit(ms, ps)
    ensures var section := BoundaryBytes(VarStart(ms, ps), BoundaryWidth(ms), VarChunks(ms, ps), BoundaryCount(ms));
            && Boundaries(ms) + |section| == Head(ms) <= |Assemble(ms, ps)|
            && Assemble(ms, ps)[Boundaries(ms)..Boundaries(ms) + |section|] == section
  {
    hide Assemble, Flat, Head, VarStart, Boundaries;
    PartsAt(ms, ps);
  }

  lemma {:induction false} BoundaryAssembled(ms: seq<Member>, ps: seq<Part>, k: nat)
    requires PartsFit(ms, ps) && k < BoundaryCount(ms) && BoundariesFit(ms, ps)
    ensures var w, at := BoundaryWidth(ms), Boundaries(ms) + Times(k, BoundaryWidth(ms));
            && at + w <= |Assemble(ms, ps)|
            && BoundAt(Assemble(ms, ps), at, w) == EndOf(VarStart(ms, ps), VarChunks(ms, ps), k)
  {
    hide Assemble, BoundaryBytes, EndOf, VarChunks;
    var w, b := BoundaryWidth(ms), Assemble(ms, ps);
    var at, end := Boundaries(ms) + Times(k, w), EndOf(VarStart(ms, ps), VarChunks(ms, ps), k);
    var section := BoundaryBytes(VarStart(ms, ps), w, VarChunks(ms, ps), BoundaryCount(ms));
    BoundaryBytesAt(VarStart(ms, ps), w, VarChunks(ms, ps), BoundaryCount(ms), k);
    BoundarySectionAt(ms, ps);
    SectionSlice(b, Boundaries(ms), section, Times(k, w), Times(k, w) + w);
    BoundAtLe(b, at, w, end);
  }

  lemma {:induction false} PartsFitFront(ms: seq<Member>, ps: seq<Part>)
    requires PartsFit(ms, ps) && ms != []
    ensures |ps| == |ms| && PartsFit(ms[..|ms| - 1], ps[..|ms| - 1])
  {
  }

  lemma {:induction false} VarChunksLast(ms: seq<Member>, ps: seq<Part>)
    requires |ms| == |ps| > 0
    ensures var n := |ms| - 1;
            && VarChunks(ms, ps) == VarChunks(ms[..n], ps[..n]) + (if ms[n].IsVar() then [ChunkBytes(ps[n])] else [])
            && Vars(ms) == Vars(ms[..n]) + if ms[n].IsVar() then 1 else 0
  {
  }

  lemma {:induction false} VarChunkAt(ms: seq<Member>, ps: seq<Part>, i: nat)
    requires PartsFit(ms, ps) && i < |ms| && ms[i].IsVar()
    ensures Vars(ms[..i]) < Vars(ms) && VarChunks(ms, ps)[Vars(ms[..i])] == ChunkBytes(ps[i])
  {
    hide VarChunks, Vars, PartsFit, PartFits;
    var n := |ms| - 1;
    PartsFitFront(ms, ps);
    VarChunksLast(ms, ps);
    SlotStep(ms, i);
    if i < n {
      assert ms[i] == ms[..n][i] && ms[..n][..i] == ms[..i];
      VarChunkAt(ms[..n], ps[..n], i);
    }
  }

  // ----- the var section of what was assembled

  lemma {:induction false} VarSectionAt(ms: seq<Member>, ps: seq<Part>)
    requires PartsFit(ms, ps)
    ensures var section, start := Flat(VarChunks(ms, ps)), VarStart(ms, ps);
            && start + |section| == |Assemble(ms, ps)|
            && Assemble(ms, ps)[start..start + |section|] == section
  {
    AssembledSize(ms, ps);
    PartsAt(ms, ps);
    hide Assemble, Flat, Head, VarStart, Boundaries;
  }

  lemma {:induction false} SlotBeginAssembled(ms: seq<Member>, ps: seq<Part>, i: nat)
    requires PartsFit(ms, ps) && i < |ms| && ms[i].IsVar() && BoundariesFit(ms, ps) && Head(ms) <= |Assemble(ms, ps)|
    ensures Vars(ms[..i]) < Vars(ms)
    ensures FieldBegin(ms, Assemble(ms, ps), i) == VarStart(ms, ps) + |Flat(VarChunks(ms, ps)[..Vars(ms[..i])])|
  {
    hide Assemble, VarChunks;
    PrefixStep(ms, i);
    VarStartAssembled(ms, ps);
    if Vars(ms[..i]) > 0 {
      BoundaryAssembled(ms, ps, Vars(ms[..i]) - 1);
    }
  }

  lemma {:induction false} SlotEndAssembled(ms: seq<Member>, ps: seq<Part>, i: nat)
    requires PartsFit(ms, ps) && i < |ms| && ms[i].IsVar() && BoundariesFit(ms, ps) && Head(ms) <= |Assemble(ms, ps)|
    ensures Vars(ms[..i]) < Vars(ms)
    ensures FieldEnd(ms, Assemble(ms, ps), i) == VarStart(ms, ps) + |Flat(VarChunks(ms, ps)[..Vars(ms[..i]) + 1])|
  {
    hide Assemble, VarChunks;
    PrefixStep(ms, i);
    var chunks, k := VarChunks(ms, ps), Vars(ms[..i]);
    if k + 1 < Vars(ms) {
      BoundaryAssembled(ms, ps, k);
    } else {
      AssembledSize(ms, ps);
      assert chunks[..k + 1] == chunks;
    }
  }

  lemma {:induction false} VarAssembled(ms: seq<Member>, ps: seq<Part>, i: nat)
    requires PartsFit(ms, ps) && i < |ms| && ms[i].IsVar() && BoundariesFit(ms, ps) && Head(ms) <= |Assemble(ms, ps)|
    ensures var b := Assemble(ms, ps);
            && FieldBegin(ms, b, i) <= FieldEnd(ms, b, i) <= |b|
            && b[FieldBegin(ms, b, i)..FieldEnd(ms, b, i)] == ChunkBytes(ps[i])
  {
    hide Assemble, VarChunks, FieldBegin, FieldEnd, VarStart;
    var chunks, k := VarChunks(ms, ps), Vars(ms[..i]);
    SlotBeginAssembled(ms, ps, i);
    SlotEndAssembled(ms, ps, i);
    FlatPiece(chunks, k);
    VarChunkAt(ms, ps, i);
    VarSectionAt(ms, ps);
    SectionSlice(Assemble(ms, ps), VarStart(ms, ps), Flat(chunks), |Flat(chunks[..k])|, |Flat(chunks[..k + 1])|);
  }

  lemma {:induction false} BoundaryOrderedAssembled(ms: seq<Member>, ps: seq<Part>, k: nat)
    requires PartsFit(ms, ps) && BoundariesFit(ms, ps) && k < BoundaryCount(ms)
    ensures var b, w, at := Assemble(ms, ps), BoundaryWidth(ms), Boundaries(ms) + Times(k, BoundaryWidth(ms));
            && at + w <= |b| && (k > 0 ==> Boundaries(ms) + Times(k - 1, w) + w <= |b|)
            && SlotBegin(b, VarStart(ms, ps), Boundaries(ms), w, k) <= BoundAt(b, at, w) <= |b|
  {
    hide Assemble, VarChunks, BoundAt;
    BoundaryAssembled(ms, ps, k);
    if k > 0 {
      BoundaryAssembled(ms, ps, k - 1);
    }
    FlatPiece(VarChunks(ms, ps), k);
    AssembledSize(ms, ps);
  }

  lemma {:induction false} BoundariesAssembled(ms: seq<Member>, ps: seq<Part>, n: nat)
    requires PartsFit(ms, ps) && BoundariesFit(ms, ps) && Head(ms) <= |Assemble(ms, ps)| && n <= BoundaryCount(ms)
    ensures Boundaries(ms) + Times(n, BoundaryWidth(ms)) <= Head(ms)
    ensures BoundariesOrdered(Assemble(ms, ps), VarStart(ms, ps), Boundaries(ms), BoundaryWidth(ms), n)
  {
    hide Assemble, VarChunks, BoundAt, SlotBegin, BoundaryWidth, Boundaries;
    TimesMonotone(n, BoundaryCount(ms), BoundaryWidth(ms));
    if n > 0 {
      BoundariesAssembled(ms, ps, n - 1);
      BoundaryOrderedAssembled(ms, ps, n - 1);
    }
  }

  lemma {:induction false} AbsentAssembled(ms: seq<Member>, ps: seq<Part>)
    requires PartsFit(ms, ps) && BoundariesFit(ms, ps) && Head(ms) <= |Assemble(ms, ps)|
    ensures AbsentEmpty(ms, Assemble(ms, ps))
  {
    var b := Assemble(ms, ps);
    forall i | 0 <= i < |ms| && ms[i].IsVar() && ms[i].optional && !FieldBit(ms, b, i, 0)
      ensures FieldBegin(ms, b, i) == FieldEnd(ms, b, i)
    {
      PresenceAssembled(ms, ps, i);
      VarAssembled(ms, ps, i);
    }
  }

  lemma {:induction false} FlagsAssembled(ms: seq<Member>, ps: seq<Part>)
    requires PartsFit(ms, ps) && Head(ms) <= |Assemble(ms, ps)|
    ensures FlagsCanonical(ms, Assemble(ms, ps))
  {
    forall i | 0 <= i < |ms| && ms[i].flag && ms[i].optional
      ensures FieldBit(ms, Assemble(ms, ps), i, 0) || !FieldBit(ms, Assemble(ms, ps), i, 1)
    {
      FieldBitAssembled(ms, ps, i, 0);
      FieldBitAssembled(ms, ps, i, 1);
    }
  }

  /** The validator's checks of the object itself accept whatever the encoder assembles. */
  lemma {:induction false} AssembledValid(ms: seq<Member>, ps: seq<Part>)
    requires PartsFit(ms, ps) && BoundariesFit(ms, ps)
    ensures ObjectValid(ms, Assemble(ms, ps))
  {
    AssembledSize(ms, ps);
    UnusedAssembled(ms, ps);
    FlagsAssembled(ms, ps);
    VarStartAssembled(ms, ps);
    BoundariesAssembled(ms, ps, BoundaryCount(ms));
    AbsentAssembled(ms, ps);
  }

  lemma {:induction false} ExtractFlagAssembled(ms: seq<Member>, ps: seq<Part>, i: nat)
    requires PartsFit(ms, ps) && i < |ms| && Head(ms) <= MAX_SIZE && ms[i].flag
    requires ObjectValid(ms, Assemble(ms, ps))
    ensures Extract(ms, Assemble(ms, ps), i) == ps[i]
  {
    hide Assemble, ObjectValid, FieldBit;
    assert Head(ms) <= |Assemble(ms, ps)| by {
      AssembledFits(ms, ps);
    }
    FieldBitAssembled(ms, ps, i, 0);
    if ms[i].optional {
      FieldBitAssembled(ms, ps, i, 1);
      match ps[i].maybe {
        case None =>
        case Some(v) => assert BitPiece(ms[i], ps[i]) == [true, v];
      }
    }
  }

  lemma {:induction false} ExtractChunkAssembled(ms: seq<Member>, ps: seq<Part>, i: nat)
    requires PartsFit(ms, ps) && BoundariesFit(ms, ps) && i < |ms| && Head(ms) <= MAX_SIZE
    requires ObjectValid(ms, Assemble(ms, ps)) && !ms[i].flag && !ms[i].IsAt()
    ensures Extract(ms, Assemble(ms, ps), i) == ps[i]
  {
    hide Assemble, ObjectValid, FieldBit, FieldBegin, FieldEnd, Position;
    AssembledFits(ms, ps);
    if ms[i].optional {
      PresenceAssembled(ms, ps, i);
    }
    if ms[i].IsVar() {
      VarAssembled(ms, ps, i);
    } else if ps[i].chunk.Some? {
      OptionalAssembled(ms, ps, i);
    }
  }

  /** The view's accessors find in an assembled object the parts it was assembled from. */
  lemma {:induction false} ExtractAssembled(ms: seq<Member>, ps: seq<Part>, i: nat)
    requires PartsFit(ms, ps) && BoundariesFit(ms, ps) && i < |ms| && Head(ms) <= MAX_SIZE
    ensures ObjectValid(ms, Assemble(ms, ps))
    ensures Extract(ms, Assemble(ms, ps), i) == ps[i]
  {
    hide Assemble, ObjectValid;
    AssembledValid(ms, ps);
    AssembledFits(ms, ps);
    if ms[i].flag {
      ExtractFlagAssembled(ms, ps, i);
    } else if ms[i].IsAt() {
      AtAssembled(ms, ps, i);
    } else {
      ExtractChunkAssembled(ms, ps, i);
    }
  }

  // ----- a validated object is the one assembled from what the accessors find

  function Disassemble(ms: seq<Member>, b: seq<byte>): (ps: seq<Part>)
    requires ObjectValid(ms, b) && Head(ms) <= MAX_SIZE
    ensures |ps| == |ms|
  {
    seq(|ms|, i requires 0 <= i < |ms| => Extract(ms, b, i))
  }

  lemma {:induction false} DisassembledPart(ms: seq<Member>, b: seq<byte>, i: nat)
    requires ObjectValid(ms, b) && Head(ms) <= MAX_SIZE && i < |ms|
    ensures Disassemble(ms, b)[i] == Extract(ms, b, i)
  {
  }

  lemma {:induction false} DisassembledFits(ms: seq<Member>, b: seq<byte>)
    requires ObjectValid(ms, b) && Head(ms) <= MAX_SIZE
    ensures PartsFit(ms, Disassemble(ms, b))
  {
    hide ObjectValid, Extract;
    forall i | 0 <= i < |ms|
      ensures PartFits(ms[i], Disassemble(ms, b)[i])
    {
      ExtractFits(ms, b, i);
    }
  }

  lemma {:induction false} BitPieceDisassembled(ms: seq<Member>, b: seq<byte>, i: nat, j: nat)
    requires ObjectValid(ms, b) && Head(ms) <= MAX_SIZE && i < |ms| && j < ms[i].Bits()
    requires PartFits(ms[i], Extract(ms, b, i))
    ensures BitPiece(ms[i], Extract(ms, b, i))[j] == FieldBit(ms, b, i, j)
  {
  }

  /** Every bit below the count belongs to a field. */
  lemma {:induction false} BitOwner(ms: seq<Member>, n: nat) returns (i: nat, j: nat)
    requires n < Bits(ms)
    ensures i < |ms| && j < ms[i].Bits() && Bits(ms[..i]) + j == n
  {
    var last := |ms| - 1;
    if n < Bits(ms[..last]) {
      i, j := BitOwner(ms[..last], n);
      assert ms[..last][..i] == ms[..i];
    } else {
      i, j := last, n - Bits(ms[..last]);
    }
  }

  lemma {:induction false} ClaimedBitDisassembled(ms: seq<Member>, b: seq<byte>, ps: seq<Part>, n: nat)
    requires ObjectValid(ms, b) && Head(ms) <= MAX_SIZE && ps == Disassemble(ms, b) && PartsFit(ms, ps)
    requires Head(ms) <= |b| && n < Bits(ms)
    ensures n < |Flat(BitPieces(ms, ps))| && Flat(BitPieces(ms, ps))[n] == Bit(b, n)
  {
    hide ObjectValid, Extract, BitPiece;
    var i, j := BitOwner(ms, n);
    BitPieceAt(ms, ps, i, j);
    BitPieceDisassembled(ms, b, i, j);
  }

  lemma {:induction false} LastByte(bits: nat, n: nat)
    requires bits <= n < 8 * ((bits + 7) / 8)
    ensures bits % 8 != 0 && n / 8 == (bits + 7) / 8 - 1 && bits % 8 <= n % 8
  {
  }

  lemma {:induction false} UnusedBitDisassembled(ms: seq<Member>, b: seq<byte>, n: nat)
    requires Head(ms) <= |b| && UnusedClear(ms, b) && Bits(ms) <= n < 8 * Bitmap(ms)
    ensures !Bit(b, n)
  {
    LastByte(Bits(ms), n);
    hide Shr, Head, Bits;
    ShrZero(b[Bitmap(ms) - 1], Bits(ms) % 8, n % 8);
  }

  lemma {:induction false} BitmapDisassembled(ms: seq<Member>, b: seq<byte>, ps: seq<Part>)
    requires ObjectValid(ms, b) && Head(ms) <= MAX_SIZE && ps == Disassemble(ms, b) && PartsFit(ms, ps)
    ensures Bitmap(ms) <= |b| && BitSection(ms, ps) == b[..Bitmap(ms)]
  {
    hide PackBits;
    var section, bits := BitSection(ms, ps), Flat(BitPieces(ms, ps));
    BitSectionSize(ms, ps);
    forall n: nat | n < 8 * |section|
      ensures Bit(section, n) == Bit(b[..Bitmap(ms)], n)
    {
      PackBitsBit(bits, n);
      if n < Bits(ms) {
        ClaimedBitDisassembled(ms, b, ps, n);
      } else {
        UnusedBitDisassembled(ms, b, n);
      }
      assert b[..Bitmap(ms)][n / 8] == b[n / 8];
    }
    BitsDetermine(section, b[..Bitmap(ms)]);
  }

  lemma {:induction false} PlainPieceDisassembled(ms: seq<Member>, b: seq<byte>, ps: seq<Part>, i: nat)
    requires ObjectValid(ms, b) && Head(ms) <= MAX_SIZE && ps == Disassemble(ms, b)
    requires i < |ms| && Head(ms) <= |b|
    ensures AtBytes(ms[..i]) <= AtBytes(ms[..i + 1]) <= AtBytes(ms)
    ensures PlainPiece(ms[i], ps[i]) == b[Bitmap(ms) + AtBytes(ms[..i])..Bitmap(ms) + AtBytes(ms[..i + 1])]
  {
    hide ObjectValid, AtBytes, Head, Disassemble;
    PrefixStep(ms, i);
    HeadParts(ms);
    DisassembledPart(ms, b, i);
  }

  lemma {:induction false} PlainDisassembled(ms: seq<Member>, b: seq<byte>, ps: seq<Part>, i: nat)
    requires ObjectValid(ms, b) && Head(ms) <= MAX_SIZE && ps == Disassemble(ms, b)
    requires i <= |ms| && Head(ms) <= |b|
    ensures Bitmap(ms) + AtBytes(ms[..i]) <= Boundaries(ms)
    ensures Flat(PlainPieces(ms, ps)[..i]) == b[Bitmap(ms)..Bitmap(ms) + AtBytes(ms[..i])]
  {
    hide ObjectValid, PlainPiece, Disassemble, Head, Flat, AtBytes;
    assert Boundaries(ms) <= Head(ms) by {
      HeadParts(ms);
    }
    PrefixSums(ms, i);
    var pieces, from := PlainPieces(ms, ps), Bitmap(ms);
    if i > 0 {
      PlainDisassembled(ms, b, ps, i - 1);
      PlainPieceDisassembled(ms, b, ps, i - 1);
      FlatStep(pieces, i - 1);
      SliceJoin(b, from, from + AtBytes(ms[..i - 1]), from + AtBytes(ms[..i]));
    } else {
      NoPieces(pieces);
      assert AtBytes(ms[..0]) == 0 by {
        NoAtBytes();
        assert ms[..0] == [];
      }
    }
  }

  lemma {:induction false} OptionalsDisassembled(ms: seq<Member>, b: seq<byte>, ps: seq<Part>, i: nat)
    requires ObjectValid(ms, b) && Head(ms) <= MAX_SIZE && ps == Disassemble(ms, b)
    requires i <= |ms| && Head(ms) <= |b|
    ensures Head(ms) <= Position(ms, b, i) <= |b|
    ensures Flat(OptionalPieces(ms, ps)[..i]) == b[Head(ms)..Position(ms, b, i)]
  {
    hide ObjectValid, Head, Disassemble, OptionalPiece;
    OptionalsFrom(ms, b);
    PositionMonotone(ms, b, i);
    if i > 0 {
      OptionalsDisassembled(ms, b, ps, i - 1);
      OptionalPieceDisassembled(ms, b, ps, i - 1);
      FlatStep(OptionalPieces(ms, ps), i - 1);
    }
  }

  lemma {:induction false} OptionalsFrom(ms: seq<Member>, b: seq<byte>)
    requires ObjectValid(ms, b) && Head(ms) <= |b|
    ensures Position(ms, b, 0) == Head(ms) && Position(ms, b, |ms|) <= |b|
  {
    assert ms[..0] == [];
  }

  lemma {:induction false} OptionalPieceDisassembled(ms: seq<Member>, b: seq<byte>, ps: seq<Part>, i: nat)
    requires ObjectValid(ms, b) && Head(ms) <= MAX_SIZE && ps == Disassemble(ms, b)
    requires i < |ms| && Head(ms) <= |b|
    ensures Position(ms, b, i) <= Position(ms, b, i + 1) <= |b|
    ensures OptionalPiece(ms[i], ps[i]) == b[Position(ms, b, i)..Position(ms, b, i + 1)]
  {
    PositionStep(ms, b, i);
    PositionMonotone(ms, b, i + 1);
  }

  /** The field holding slot `k`. */
  lemma {:induction false} SlotOwner(ms: seq<Member>, k: nat) returns (i: nat)
    requires k < Vars(ms)
    ensures i < |ms| && ms[i].IsVar() && Vars(ms[..i]) == k
  {
    var last := |ms| - 1;
    if k < Vars(ms[..last]) {
      i := SlotOwner(ms[..last], k);
      assert ms[..last][..i] == ms[..i];
    } else {
      i := last;
    }
  }

  /** Where slot `k` begins, or the last one ends. */
  function Mark(ms: seq<Member>, b: seq<byte>, k: nat): nat
    requires Head(ms) <= |b| && k <= Vars(ms)
  {
    if k == 0 then Position(ms, b, |ms|)
    else if k == Vars(ms) then |b|
    else
      TimesMonotone(k, BoundaryCount(ms), BoundaryWidth(ms));
      BoundAt(b, Boundaries(ms) + Times(k - 1, BoundaryWidth(ms)), BoundaryWidth(ms))
  }

  lemma {:induction false} FieldMarks(ms: seq<Member>, b: seq<byte>, i: nat)
    requires i < |ms| && ms[i].IsVar() && Head(ms) <= |b|
    ensures Vars(ms[..i]) < Vars(ms)
    ensures FieldBegin(ms, b, i) == Mark(ms, b, Vars(ms[..i]))
    ensures FieldEnd(ms, b, i) == Mark(ms, b, Vars(ms[..i]) + 1)
  {
    hide BoundAt, Position, Head, Boundaries, BoundaryWidth, Times;
    PrefixStep(ms, i);
  }

  lemma {:induction false} ChunkDisassembled(ms: seq<Member>, b: seq<byte>, ps: seq<Part>, i: nat)
    requires ObjectValid(ms, b) && Head(ms) <= MAX_SIZE && ps == Disassemble(ms, b)
    requires i < |ms| && ms[i].IsVar()
    ensures FieldBegin(ms, b, i) <= FieldEnd(ms, b, i) <= |b|
    ensures ChunkBytes(ps[i]) == b[FieldBegin(ms, b, i)..FieldEnd(ms, b, i)]
  {
    hide FieldBegin, FieldEnd, Disassemble;
    SlotSafe(ms, b, i);
    DisassembledPart(ms, b, i);
  }

  lemma {:induction false} FirstMark(ms: seq<Member>, b: seq<byte>)
    requires ObjectValid(ms, b)
    ensures Mark(ms, b, 0) == Position(ms, b, |ms|) <= |b|
  {
  }

  /** Slot `k` holds the bytes between its marks. */
  lemma {:induction false} SlotDisassembled(ms: seq<Member>, b: seq<byte>, ps: seq<Part>, k: nat)
    requires ObjectValid(ms, b) && Head(ms) <= MAX_SIZE && ps == Disassemble(ms, b) && PartsFit(ms, ps)
    requires k < Vars(ms) && Head(ms) <= |b|
    ensures Mark(ms, b, k) <= Mark(ms, b, k + 1) <= |b|
    ensures VarChunks(ms, ps)[k] == b[Mark(ms, b, k)..Mark(ms, b, k + 1)]
  {
    hide ObjectValid, Mark, FieldBegin, FieldEnd, Disassemble, PartsFit, VarChunks, Head, ChunkBytes;
    var i := SlotOwner(ms, k);
    FieldMarks(ms, b, i);
    ChunkDisassembled(ms, b, ps, i);
    VarChunkAt(ms, ps, i);
  }

  lemma {:induction false} VarsDisassembled(ms: seq<Member>, b: seq<byte>, ps: seq<Part>, k: nat)
    requires ObjectValid(ms, b) && Head(ms) <= MAX_SIZE && ps == Disassemble(ms, b) && PartsFit(ms, ps)
    requires k <= Vars(ms) && Head(ms) <= |b|
    ensures Position(ms, b, |ms|) <= Mark(ms, b, k) <= |b|
    ensures Flat(VarChunks(ms, ps)[..k]) == b[Position(ms, b, |ms|)..Mark(ms, b, k)]
  {
    hide ObjectValid, Mark, Disassemble, PartsFit, VarChunks, Position, Head;
    if k == 0 {
      FirstMark(ms, b);
    } else {
      VarsDisassembled(ms, b, ps, k - 1);
      SlotDisassembled(ms, b, ps, k - 1);
      FlatStep(VarChunks(ms, ps), k - 1);
    }
  }

  lemma {:induction false} EndDisassembled(ms: seq<Member>, b: seq<byte>, ps: seq<Part>, k: nat)
    requires ObjectValid(ms, b) && Head(ms) <= MAX_SIZE && ps == Disassemble(ms, b) && PartsFit(ms, ps)
    requires VarStart(ms, ps) == Position(ms, b, |ms|) && k < BoundaryCount(ms)
    ensures var w, at := BoundaryWidth(ms), Boundaries(ms) + Times(k, BoundaryWidth(ms));
            && at + w <= |b|
            && EndOf(VarStart(ms, ps), VarChunks(ms, ps), k) == BoundAt(b, at, w)
  {
    hide ObjectValid, VarStart, Disassemble, PartsFit, VarChunks, BoundAt;
    ValidHead(ms, b);
    TimesMonotone(k + 1, BoundaryCount(ms), BoundaryWidth(ms));
    VarsDisassembled(ms, b, ps, k + 1);
  }

  lemma {:induction false} BoundIsLe(b: seq<byte>, at: nat, w: nat)
    requires w in {1, 2} && at + w <= |b|
    ensures BoundAt(b, at, w) < Pow256(w) && Le(w, BoundAt(b, at, w)) == b[at..at + w]
  {
    ReadLenIsLe(b[at..], w);
    assert b[at..][..w] == b[at..at + w];
  }

  lemma {:induction false} BoundariesDisassembled(ms: seq<Member>, b: seq<byte>, ps: seq<Part>, n: nat)
    requires ObjectValid(ms, b) && Head(ms) <= MAX_SIZE && ps == Disassemble(ms, b) && PartsFit(ms, ps)
    requires VarStart(ms, ps) == Position(ms, b, |ms|) && n <= BoundaryCount(ms)
    ensures Boundaries(ms) + Times(n, BoundaryWidth(ms)) <= Head(ms) <= |b|
    ensures BoundaryBytes(VarStart(ms, ps), BoundaryWidth(ms), VarChunks(ms, ps), n)
         == b[Boundaries(ms)..Boundaries(ms) + Times(n, BoundaryWidth(ms))]
  {
    hide ObjectValid, VarStart, EndOf, VarChunks, BoundAt, BoundaryWidth, Boundaries, Position, Disassemble, PartsFit, Le;
    TimesMonotone(n, BoundaryCount(ms), BoundaryWidth(ms));
    ValidHead(ms, b);
    if n > 0 {
      BoundariesDisassembled(ms, b, ps, n - 1);
      EndDisassembled(ms, b, ps, n - 1);
      var w, from, at := BoundaryWidth(ms), Boundaries(ms), Boundaries(ms) + Times(n - 1, BoundaryWidth(ms));
      BoundIsLe(b, at, w);
      SliceJoin(b, from, at, at + w);
    }
  }

  lemma {:induction false} VarStartDisassembled(ms: seq<Member>, b: seq<byte>, ps: seq<Part>)
    requires ObjectValid(ms, b) && Head(ms) <= MAX_SIZE && ps == Disassemble(ms, b)
    ensures VarStart(ms, ps) == Position(ms, b, |ms|)
  {
    ValidHead(ms, b);
    OptionalsDisassembled(ms, b, ps, |ms|);
    assert OptionalPieces(ms, ps)[..|ms|] == OptionalPieces(ms, ps);
  }

  lemma {:induction false} AllMarked(ms: seq<Member>, b: seq<byte>)
    requires ObjectValid(ms, b)
    ensures Mark(ms, b, Vars(ms)) == |b|
  {
  }

  lemma {:induction false} BoundariesFitDisassembled(ms: seq<Member>, b: seq<byte>, ps: seq<Part>)
    requires ObjectValid(ms, b) && Head(ms) <= MAX_SIZE && ps == Disassemble(ms, b) && PartsFit(ms, ps)
    ensures BoundariesFit(ms, ps)
  {
    hide ObjectValid, EndOf, VarStart, VarChunks, BoundAt;
    VarStartDisassembled(ms, b, ps);
    forall k | 0 <= k < BoundaryCount(ms)
      ensures EndOf(VarStart(ms, ps), VarChunks(ms, ps), k) < Pow256(BoundaryWidth(ms))
    {
      EndDisassembled(ms, b, ps, k);
      BoundIsLe(b, Boundaries(ms) + Times(k, BoundaryWidth(ms)), BoundaryWidth(ms));
    }
  }

  lemma {:induction false} SectionsJoin(b: seq<byte>, i: nat, j: nat, k: nat, l: nat)
    requires i <= j <= k <= l <= |b|
    ensures b[..i] + b[i..j] + b[j..k] + b[k..l] + b[l..|b|] == b
  {
  }

  lemma {:induction false} SectionsDisassembled(ms: seq<Member>, b: seq<byte>, ps: seq<Part>)
    requires ObjectValid(ms, b) && Head(ms) <= MAX_SIZE && ps == Disassemble(ms, b) && PartsFit(ms, ps)
    ensures Bitmap(ms) <= Boundaries(ms) <= Head(ms) <= VarStart(ms, ps) <= |b|
    ensures Flat(PlainPieces(ms, ps)) == b[Bitmap(ms)..Boundaries(ms)]
    ensures Flat(OptionalPieces(ms, ps)) == b[Head(ms)..VarStart(ms, ps)]
    ensures Flat(VarChunks(ms, ps)) == b[VarStart(ms, ps)..|b|]
  {
    hide ObjectValid, Disassemble, VarStart, Mark, Position, Head, PartsFit;
    ValidHead(ms, b);
    HeadParts(ms);
    VarStartDisassembled(ms, b, ps);
    PlainDisassembled(ms, b, ps, |ms|);
    OptionalsDisassembled(ms, b, ps, |ms|);
    VarsDisassembled(ms, b, ps, Vars(ms));
    AllMarked(ms, b);
    assert ms[..|ms|] == ms && PlainPieces(ms, ps)[..|ms|] == PlainPieces(ms, ps);
    assert OptionalPieces(ms, ps)[..|ms|] == OptionalPieces(ms, ps) && VarChunks(ms, ps)[..Vars(ms)] == VarChunks(ms, ps);
  }

  /** The checks leave one encoding of the parts the accessors find: a validated object is it. */
  lemma {:induction false} AssembleDisassembled(ms: seq<Member>, b: seq<byte>)
    requires ObjectValid(ms, b) && Head(ms) <= MAX_SIZE
    ensures PartsFit(ms, Disassemble(ms, b)) && BoundariesFit(ms, Disassemble(ms, b))
    ensures Assemble(ms, Disassemble(ms, b)) == b
  {
    hide ObjectValid, Disassemble, PartsFit, BoundariesFit, BitSection, VarStart, Position, BoundaryBytes, Flat, PlainPieces,
      OptionalPieces, VarChunks;
    var ps := Disassemble(ms, b);
    DisassembledFits(ms, b);
    BoundariesFitDisassembled(ms, b, ps);
    BitmapDisassembled(ms, b, ps);
    SectionsDisassembled(ms, b, ps);
    VarStartDisassembled(ms, b, ps);
    BoundariesDisassembled(ms, b, ps, BoundaryCount(ms));
    SectionsJoin(b, Bitmap(ms), Boundaries(ms), Head(ms), VarStart(ms, ps));
  }
}
