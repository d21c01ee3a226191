/**
 Scalars: how each is stored, what its encoder checks, what its validator accepts, and what
 reading it in place gives. Floats are their bits, compared by sign and magnitude.
 */
module Scalars {
  import opened Wrappers
  import opened Bytes
  import opened Layouts

  const MAX_TIMESTAMP_MICROS: nat := 253_402_300_799_999_999
  const MAX_DURATION_MICROS: nat := 315_576_000_000_000_000

  /** The largest duration is 10000 Julian years of 365.25 days, the compiler's bound on a literal. */
  lemma {:induction false} MaxDuration()
    ensures MAX_DURATION_MICROS == 100 * 36_525 * 86_400 * 1_000_000
  {
  }

  datatype IntKind = I8 | I16 | I32 | I64 | U8 | U16 | U32 | U64 {
    predicate Signed() {
      I8? || I16? || I32? || I64?
    }

    function Width(): (w: nat)
      ensures w in {1, 2, 4, 8}
    {
      match this
      case I8 | U8 => 1
      case I16 | U16 => 2
      case I32 | U32 => 4
      case I64 | U64 => 8
    }

    /** The number of values of the type. */
    function Span(): (s: nat)
      ensures s == Pow256(Width())
    {
      PowValues();
      match this
      case I8 | U8 => 0x100
      case I16 | U16 => 0x1_0000
      case I32 | U32 => 0x1_0000_0000
      case I64 | U64 => 0x1_0000_0000_0000_0000
    }

    function Lowest(): int {
      if Signed() then -(Span() / 2) else 0
    }

    function Highest(): int {
      Lowest() + Span() - 1
    }
  }

  datatype Scalar =
    | Int(kind: IntKind, min: Option<int>, max: Option<int>)
    | Float(double: bool, nan: bool, infinite: bool, least: Option<int>, most: Option<int>)
    | Bool
    | Timestamp
    | Duration
    | Entity
    | Enum(repr: nat, values: seq<nat>)

  /** An owned scalar. Times are in microseconds, as the runtime truncates finer ones. */
  datatype Atom =
    | AInt(number: int)
    | AFloat(bits: nat)
    | ABool(truth: bool)
    | AMicros(micros: int)
    | AEntity(index: nat, generation: nat)
    | AEnum(value: nat)

  // ----- integers

  /** How an integer is stored: as declared, or as its distance from `min` in fewer bytes. */
  datatype IntRepr = Native(width: nat) | Biased(min: int, width: nat)

  function Lo(s: Scalar): int
    requires s.Int?
  {
    s.min.GetOr(s.kind.Lowest())
  }

  function Hi(s: Scalar): int
    requires s.Int?
  {
    s.max.GetOr(s.kind.Highest())
  }

  /** Bounds within the type and not inverted, as lowering checks. */
  predicate BoundsOk(s: Scalar)
    requires s.Int?
  {
    s.kind.Lowest() <= Lo(s) <= Hi(s) <= s.kind.Highest()
  }

  function ReprOf(s: Scalar): IntRepr
    requires s.Int? && BoundsOk(s)
  {
    var width := WidthOf(Hi(s) - Lo(s));
    if width < s.kind.Width() then Biased(Lo(s), width) else Native(s.kind.Width())
  }

  /** An integer takes the least width that tells all its values apart, biased only when that is less than its type's. */
  lemma {:induction false} ReprLeast(s: Scalar, w: nat)
    requires s.Int? && BoundsOk(s) && w in {1, 2, 4, 8}
    ensures ReprOf(s).width <= w <==> forall past :: 0 <= past <= Hi(s) - Lo(s) ==> FitsWidth(past, w)
    ensures ReprOf(s).Native? <==> ReprOf(s).width == s.kind.Width()
    ensures ReprOf(s).Biased? ==> ReprOf(s).min == Lo(s)
  {
    PowValues();
    WidthLeast(Hi(s) - Lo(s), w);
  }

  /** `value` as two's complement of the type. */
  function ToRaw(kind: IntKind, value: int): (raw: nat)
    requires kind.Lowest() <= value <= kind.Highest()
    ensures raw < kind.Span()
  {
    if value < 0 then value + kind.Span() else value
  }

  function FromRaw(kind: IntKind, raw: nat): (value: int)
    requires raw < kind.Span()
    ensures kind.Lowest() <= value <= kind.Highest()
  {
    if raw > kind.Highest() then raw - kind.Span() else raw
  }

  /** `a.wrapping_sub(b)` in the type. */
  function WrappingSub(kind: IntKind, a: int, b: int): int {
    var d := a - b;
    if d > kind.Highest() then d - kind.Span() else if d < kind.Lowest() then d + kind.Span() else d
  }

  /** `value as u8`, `u16`, or `u32`: its low bytes. */
  function Truncate(width: nat, value: int): (r: nat)
    ensures r < Pow256(width)
    ensures 0 <= value < Pow256(width) ==> r == value
  {
    ModSmall(value, Pow256(width));
    value % Pow256(width)
  }

  lemma {:induction false} ModSmall(x: int, m: nat)
    requires m > 0
    ensures 0 <= x < m ==> x % m == x
  {
  }

  function EncInt(s: Scalar, value: int): seq<byte>
    requires s.Int? && BoundsOk(s) && s.kind.Lowest() <= value <= s.kind.Highest()
  {
    match ReprOf(s)
    case Native(w) => Le(w, ToRaw(s.kind, value))
    case Biased(min, w) => Le(w, Truncate(w, WrappingSub(s.kind, value, min)))
  }

  predicate ValidInt(s: Scalar, b: seq<byte>)
    requires s.Int? && BoundsOk(s) && |b| == ReprOf(s).width
  {
    LeWrites(b);
    match ReprOf(s)
    case Native(_) => Lo(s) <= FromRaw(s.kind, LeVal(b)) <= Hi(s)
    case Biased(_, _) => LeVal(b) <= Hi(s) - Lo(s)
  }

  /** `(min + raw) as T`, which wraps into the type. */
  function Unbias(kind: IntKind, min: int, raw: nat): int {
    var value := min + raw;
    if value > kind.Highest() then value - kind.Span() else value
  }

  function ReadInt(s: Scalar, b: seq<byte>): int
    requires s.Int? && BoundsOk(s) && |b| == ReprOf(s).width
  {
    LeWrites(b);
    match ReprOf(s)
    case Native(_) => FromRaw(s.kind, LeVal(b))
    case Biased(min, _) => Unbias(s.kind, min, LeVal(b))
  }

  /** A biased value never needs the wrap-around of its subtraction, nor the truncation. */
  lemma {:induction false} BiasedRaw(s: Scalar, value: int)
    requires s.Int? && BoundsOk(s) && ReprOf(s).Biased? && Lo(s) <= value <= Hi(s)
    ensures Truncate(ReprOf(s).width, WrappingSub(s.kind, value, Lo(s))) == value - Lo(s) < Pow256(ReprOf(s).width)
  {
    PowValues();
    WidthHolds(Hi(s) - Lo(s), value - Lo(s));
  }

  lemma {:induction false} NativeRoundTrip(s: Scalar, value: int)
    requires s.Int? && BoundsOk(s) && Lo(s) <= value <= Hi(s) && ReprOf(s).Native?
    ensures |EncInt(s, value)| == ReprOf(s).width
    ensures ValidInt(s, EncInt(s, value)) && ReadInt(s, EncInt(s, value)) == value
  {
    LeReads(ReprOf(s).width, ToRaw(s.kind, value));
  }

  /** Adding the minimum back never wraps for a value of the type. */
  lemma {:induction false} UnbiasRaw(s: Scalar, value: int)
    requires s.Int? && BoundsOk(s) && Lo(s) <= value <= Hi(s)
    ensures Unbias(s.kind, Lo(s), value - Lo(s)) == value
  {
  }

  lemma {:induction false} IntRoundTrip(s: Scalar, value: int)
    requires s.Int? && BoundsOk(s) && Lo(s) <= value <= Hi(s)
    ensures |EncInt(s, value)| == ReprOf(s).width
    ensures ValidInt(s, EncInt(s, value)) && ReadInt(s, EncInt(s, value)) == value
  {
    match ReprOf(s) {
      case Native(_) => NativeRoundTrip(s, value);
      case Biased(_, w) =>
        BiasedRaw(s, value);
        LeReads(w, value - Lo(s));
        UnbiasRaw(s, value);
        hide Unbias, WrappingSub, Truncate, Le, LeVal, Pow256;
    }
  }

  lemma {:induction false} IntCanonical(s: Scalar, b: seq<byte>)
    requires s.Int? && BoundsOk(s) && |b| == ReprOf(s).width && ValidInt(s, b)
    ensures Lo(s) <= ReadInt(s, b) <= Hi(s) && EncInt(s, ReadInt(s, b)) == b
  {
    LeWrites(b);
    match ReprOf(s) {
      case Native(w) =>
      case Biased(min, w) =>
        BiasedRaw(s, ReadInt(s, b));
    }
  }

  // ----- floats

  function FloatWidth(double: bool): nat {
    if double then 8 else 4
  }

  /** The bits of the sign, one past the largest magnitude. */
  function SignBit(double: bool): nat {
    if double then 0x8000_0000_0000_0000 else 0x8000_0000
  }

  /** The magnitude of an infinity; a larger one is a NaN. */
  function Infinity(double: bool): nat {
    if double then 0x7ff0_0000_0000_0000 else 0x7f80_0000
  }

  function Magnitude(double: bool, bits: nat): nat {
    bits % SignBit(double)
  }

  /** Orders the floats that are not NaN; the zeros of either sign are equal. */
  function Key(double: bool, bits: nat): int {
    if bits >= SignBit(double) then -(Magnitude(double, bits) as int) else Magnitude(double, bits)
  }

  /** The checks of `en::float` and `de::float`. */
  predicate FloatOk(s: Scalar, bits: nat)
    requires s.Float?
  {
    if Magnitude(s.double, bits) > Infinity(s.double) then s.nan
    else
      && (Magnitude(s.double, bits) == Infinity(s.double) ==> s.infinite)
      && s.least.GetOr(-(Infinity(s.double) as int)) <= Key(s.double, bits) <= s.most.GetOr(Infinity(s.double))
  }

  // ----- which checks are emitted

  /** The bounds exclude a value of the type, so they are checked. */
  predicate Constrained(s: Scalar)
    requires s.Int?
  {
    Lo(s) > s.kind.Lowest() || Hi(s) < s.kind.Highest()
  }

  /** Every float of the type is allowed, so none is checked. */
  predicate AnyFloat(s: Scalar)
    requires s.Float?
  {
    s.nan && s.infinite && s.least.None? && s.most.None?
  }

  lemma {:induction false} AnyFloatOk(s: Scalar, bits: nat)
    requires s.Float?
    ensures AnyFloat(s) ==> FloatOk(s, bits)
  {
  }

  // ----- every scalar

  predicate ScalarWf(s: Scalar) {
    match s
    case Int(_, _, _) => BoundsOk(s)
    case Enum(repr, values) => repr in {1, 2, 4, 8} && forall v <- values :: v < Pow256(repr)
    case _ => true
  }

  function ScalarSize(s: Scalar): nat
    requires ScalarWf(s)
  {
    match s
    case Int(_, _, _) => ReprOf(s).width
    case Float(double, _, _, _, _) => FloatWidth(double)
    case Bool => 1
    case Timestamp | Duration | Entity => 8
    case Enum(repr, _) => repr
  }

  /** `a` is a value of the owned type. */
  predicate AtomTyped(s: Scalar, a: Atom) {
    match s
    case Int(kind, _, _) => a.AInt? && kind.Lowest() <= a.number <= kind.Highest()
    case Float(double, _, _, _, _) => a.AFloat? && a.bits < Pow256(FloatWidth(double))
    case Bool => a.ABool?
    case Timestamp => a.AMicros?
    case Duration => a.AMicros? && 0 <= a.micros
    case Entity => a.AEntity? && a.index < 0x1_0000_0000 && 0 < a.generation < 0x1_0000_0000
    case Enum(_, values) => a.AEnum? && a.value in values
  }

  /** `a` meets its type's constraints; the encoder checks just this. */
  predicate AtomMeets(s: Scalar, a: Atom)
    requires ScalarWf(s) && AtomTyped(s, a)
  {
    match s
    case Int(_, _, _) => Lo(s) <= a.number <= Hi(s)
    case Float(_, _, _, _, _) => FloatOk(s, a.bits)
    case Timestamp => 0 <= a.micros <= MAX_TIMESTAMP_MICROS
    case Duration => a.micros <= MAX_DURATION_MICROS
    case _ => true
  }

  function EntityBits(index: nat, generation: nat): nat {
    index + 0x1_0000_0000 * generation
  }

  function EncAtom(s: Scalar, a: Atom): (b: seq<byte>)
    requires ScalarWf(s) && AtomTyped(s, a)
    ensures |b| == ScalarSize(s)
  {
    match s
    case Int(_, _, _) => EncInt(s, a.number)
    case Float(double, _, _, _, _) => Le(FloatWidth(double), a.bits)
    case Bool => [if a.truth then 1 else 0]
    case Timestamp | Duration => Le(8, Truncate(8, a.micros))
    case Entity => Le(8, EntityBits(a.index, a.generation))
    case Enum(repr, _) => Le(repr, a.value)
  }

  predicate ValidAtom(s: Scalar, b: seq<byte>)
    requires ScalarWf(s)
  {
    && |b| == ScalarSize(s)
    && match s
       case Int(_, _, _) => ValidInt(s, b)
       case Float(_, _, _, _, _) => FloatOk(s, LeVal(b))
       case Bool => b[0] <= 1
       case Timestamp => LeVal(b) <= MAX_TIMESTAMP_MICROS
       case Duration => LeVal(b) <= MAX_DURATION_MICROS
       case Entity => b[4..8] != [0, 0, 0, 0]
       case Enum(_, values) => LeVal(b) in values
  }

  function ReadAtom(s: Scalar, b: seq<byte>): Atom
    requires ScalarWf(s) && |b| == ScalarSize(s)
  {
    match s
    case Int(_, _, _) => AInt(ReadInt(s, b))
    case Float(_, _, _, _, _) => AFloat(LeVal(b))
    case Bool => ABool(b[0] != 0)
    case Timestamp | Duration => AMicros(LeVal(b))
    case Entity => AEntity(LeVal(b) % 0x1_0000_0000, LeVal(b) / 0x1_0000_0000)
    case Enum(_, _) => AEnum(LeVal(b))
  }

  /** The last four bytes of eight are the high half of their value. */
  lemma {:induction false} HighHalf(b: seq<byte>)
    requires |b| == 8
    ensures LeVal(b) / 0x1_0000_0000 == LeVal(b[4..8]) < 0x1_0000_0000
    ensures LeVal(b[4..8]) == 0 <==> b[4..8] == [0, 0, 0, 0]
  {
    var low, high := b[..4], b[4..8];
    LeJoin(low, high);
    assert low + high == b;
    LeWrites(low);
    LeWrites(high);
    PowValues();
    assert Le(4, 0) == [0, 0, 0, 0];
    LeReads(4, 0);
  }

  lemma {:induction false} PowStep(n: nat, value: nat)
    ensures 256 * (Pow256(n) * value) == Pow256(n + 1) * value
  {
  }

  lemma {:induction false} LeJoin(low: seq<byte>, high: seq<byte>)
    ensures LeVal(low + high) == LeVal(low) + Pow256(|low|) * LeVal(high)
  {
    if low == [] {
      assert low + high == high;
    } else {
      assert (low + high)[1..] == low[1..] + high && (low + high)[0] == low[0];
      LeJoin(low[1..], high);
      PowStep(|low| - 1, LeVal(high));
      hide Pow256;
    }
  }

  lemma {:induction false} EntityRoundTrip(index: nat, generation: nat)
    requires index < 0x1_0000_0000 && 0 < generation < 0x1_0000_0000
    ensures var b := Le(8, EntityBits(index, generation));
            && LeVal(b) % 0x1_0000_0000 == index && LeVal(b) / 0x1_0000_0000 == generation
            && b[4..8] != [0, 0, 0, 0]
  {
    PowValues();
    LeReads(8, EntityBits(index, generation));
    HighHalf(Le(8, EntityBits(index, generation)));
  }

  lemma {:induction false} MicrosFit(micros: nat)
    requires micros <= MAX_DURATION_MICROS
    ensures micros < Pow256(8)
  {
  }

  lemma {:induction false} LeHolds(width: nat, value: nat)
    requires value < Pow256(width)
    ensures |Le(width, value)| == width && LeVal(Le(width, value)) == value && Truncate(width, value) == value
  {
    hide Truncate;
    LeReads(width, value);
  }

  /** A scalar that meets its constraints is accepted and read back. */
  lemma {:induction false} AtomRoundTrip(s: Scalar, a: Atom)
    requires ScalarWf(s) && AtomTyped(s, a) && AtomMeets(s, a)
    ensures ValidAtom(s, EncAtom(s, a)) && ReadAtom(s, EncAtom(s, a)) == a
  {
    hide Le, LeVal, Pow256, ReprOf, ValidInt, ReadInt, EncInt, FloatOk, Truncate;
    match s {
      case Int(_, _, _) => IntRoundTrip(s, a.number);
      case Float(double, _, _, _, _) => LeHolds(FloatWidth(double), a.bits);
      case Bool =>
      case Timestamp => MicrosFit(a.micros); LeHolds(8, a.micros);
      case Duration => MicrosFit(a.micros); LeHolds(8, a.micros);
      case Entity => EntityRoundTrip(a.index, a.generation);
      case Enum(repr, _) => LeHolds(repr, a.value);
    }
  }

  /** Bytes accepted as a scalar are the encoding of what they read as. */
  lemma {:induction false} AtomCanonical(s: Scalar, b: seq<byte>)
    requires ScalarWf(s) && ValidAtom(s, b)
    ensures AtomTyped(s, ReadAtom(s, b)) && AtomMeets(s, ReadAtom(s, b)) && EncAtom(s, ReadAtom(s, b)) == b
  {
    hide Le, LeVal, Pow256, ReprOf, ValidInt, ReadInt, EncInt, FloatOk, Truncate;
    LeWrites(b);
    match s {
      case Int(_, _, _) => IntCanonical(s, b);
      case Float(_, _, _, _, _) =>
      case Bool =>
      case Timestamp => MicrosFit(LeVal(b));
      case Duration => MicrosFit(LeVal(b));
      case Entity => EntityCanonical(b);
      case Enum(_, _) =>
    }
  }

  lemma {:induction false} EntityCanonical(b: seq<byte>)
    requires |b| == 8 && b[4..8] != [0, 0, 0, 0]
    ensures AtomTyped(Entity, ReadAtom(Entity, b))
    ensures EntityBits(LeVal(b) % 0x1_0000_0000, LeVal(b) / 0x1_0000_0000) == LeVal(b)
  {
    hide LeVal;
    HighHalf(b);
  }
}
