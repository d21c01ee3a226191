/**
 The generated encoder, step by step through a `Writer`: it patches counts, prefixes, and
 boundaries into bytes already written. Each method writes exactly what `Enc` describes, or
 fails for the reason given.
 */
module Encoders {
  import opened Wrappers
  import opened Bytes
  import opened Layouts
  import opened Objects
  import opened Sequences
  import opened Scalars
  import opened Types
  import opened Codec
  import opened Writers

  /**
   Writing ends well exactly when the value passes its checks, its lengths fit their widths, and
   the buffer has room; a value passing its checks fails for one of the other two, and says which.
   */
  predicate Reported(r: Outcome, checked: bool, fits: bool, room: bool) {
    if !checked then r.Fail?
    else
      && (r.Pass? <==> fits && room)
      && (r.Fail? ==> (r.error.Buffer? && !room) || (r.error.TooLarge? && !fits))
  }

  ghost predicate WriteReported(r: Outcome, ty: Type, v: Value, pos: nat, room: nat)
    requires Wf(ty) && Good(ty) && Typed(ty, v)
  {
    Reported(r, Checked(ty, v), Checked(ty, v) && Fits(ty, v), Checked(ty, v) && pos + |Enc(ty, v)| <= room)
  }

  // ----- scalars

  /** `en::float`. */
  function FloatCheck(s: Scalar, bits: nat): (r: Outcome)
    requires s.Float?
    ensures r.Pass? <==> FloatOk(s, bits)
  {
    var size := Magnitude(s.double, bits);
    if size > Infinity(s.double) then if s.nan then Pass else Fail(EncodeErrorKind.Float)
    else if size == Infinity(s.double) && !s.infinite then Fail(EncodeErrorKind.Float)
    else if s.least.GetOr(-(Infinity(s.double) as int)) <= Key(s.double, bits) <= s.most.GetOr(Infinity(s.double)) then Pass
    else Fail(Range)
  }

  /** The check the encoder makes of a scalar, if any. */
  function ScalarCheck(s: Scalar, a: Atom): (r: Outcome)
    requires ScalarWf(s) && AtomTyped(s, a)
    ensures r.Pass? <==> AtomMeets(s, a)
  {
    match s
    case Int(_, _, _) =>
      if (ReprOf(s).Biased? || Constrained(s)) && !(Lo(s) <= a.number <= Hi(s)) then Fail(Range) else Pass
    case Float(_, _, _, _, _) =>
      AnyFloatOk(s, a.bits);
      if AnyFloat(s) then Pass else FloatCheck(s, a.bits)
    case Timestamp => if a.micros < 0 || a.micros > MAX_TIMESTAMP_MICROS then Fail(Range) else Pass
    case Duration => if a.micros > MAX_DURATION_MICROS then Fail(Range) else Pass
    case _ => Pass
  }

  method WriteScalar(w: Writer, s: Scalar, a: Atom) returns (r: Outcome)
    requires w.Valid() && ScalarWf(s) && AtomTyped(s, a)
    modifies w, w.buf
    ensures w.Valid()
    ensures WriteReported(r, Atomic(s), Leaf(a), old(w.pos), w.buf.Length)
    ensures r.Pass? ==> w.Written() == old(w.Written()) + EncAtom(s, a)
  {
    r := ScalarCheck(s, a);
    if r.Fail? {
      return;
    }
    r := w.Put(EncAtom(s, a));
  }

  // ----- runs of raw bytes

  function RawByte(ty: Type, v: Value): byte
    requires Wf(ty) && IsRawByte(ty) && Typed(ty, v)
  {
    v.atom.number
  }

  /** The bytes of a run of raw bytes, as the owned `Vec<u8>` or array holds them. */
  function RawBytes(ty: Type, vs: seq<Value>): (b: seq<byte>)
    requires Wf(ty) && IsRawByte(ty) && forall i :: 0 <= i < |vs| ==> Typed(ty, vs[i])
    ensures |b| == |vs|
  {
    seq(|vs|, i requires 0 <= i < |vs| => RawByte(ty, vs[i]))
  }

  lemma {:induction false} RawByteEnc(ty: Type, v: Value)
    requires Wf(ty) && IsRawByte(ty) && Typed(ty, v)
    ensures Encodable(ty, v) && Fits(ty, v) && Enc(ty, v) == [RawByte(ty, v)]
  {
    assert Le(1, v.atom.number) == [v.atom.number % 256] + Le(0, 0);
  }

  /** Writing a run of raw bytes whole is writing each. */
  lemma {:induction false} RawBytesEnc(ty: Type, vs: seq<Value>)
    requires Wf(ty) && IsRawByte(ty) && forall i :: 0 <= i < |vs| ==> Typed(ty, vs[i])
    ensures forall i :: 0 <= i < |vs| ==> Encodable(ty, vs[i])
    ensures AllFit(ty, vs) && Flat(EncAll(ty, vs)) == RawBytes(ty, vs)
  {
    hide Encodable, Fits, Enc, Typed, IsRawByte, RawByte, SizeOf, AllOfSize, Wf;
    forall i | 0 <= i < |vs| ensures Encodable(ty, vs[i]) && Fits(ty, vs[i]) && Enc(ty, vs[i]) == [RawByte(ty, vs[i])] {
      RawByteEnc(ty, vs[i]);
    }
    if vs != [] {
      var n := |vs| - 1;
      RawBytesEnc(ty, vs[..n]);
      assert EncAll(ty, vs)[..n] == EncAll(ty, vs[..n]);
    }
  }

  // ----- values

  predicate AllTyped(ty: Type, vs: seq<Value>)
    requires Wf(ty)
  {
    (vs != [] ==> Good(ty)) && forall i :: 0 <= i < |vs| ==> Typed(ty, vs[i])
  }

  predicate AllEncodable(ty: Type, vs: seq<Value>) {
    Wf(ty) && forall i :: 0 <= i < |vs| ==> Encodable(ty, vs[i])
  }

  ghost predicate AllReported(r: Outcome, ty: Type, vs: seq<Value>, pos: nat, room: nat) {
    var checked := AllEncodable(ty, vs);
    Reported(r, checked, checked && AllFit(ty, vs), checked && pos + |Flat(EncAll(ty, vs))| <= room)
  }

  lemma {:induction false} FlatPrefixAll(ty: Type, vs: seq<Value>, i: nat)
    requires i < |vs| && AllEncodable(ty, vs)
    ensures AllEncodable(ty, vs[..i + 1]) && AllEncodable(ty, vs[..i])
    ensures Flat(EncAll(ty, vs[..i + 1])) == Flat(EncAll(ty, vs[..i])) + Enc(ty, vs[i])
    ensures |Flat(EncAll(ty, vs[..i + 1]))| <= |Flat(EncAll(ty, vs))|
  {
    hide Encodable, Enc, Flat, SizeOf, AllOfSize;
    var items := EncAll(ty, vs);
    assert EncAll(ty, vs[..i]) == items[..i] && EncAll(ty, vs[..i + 1]) == items[..i + 1];
    FlatStep(items, i);
    FlatPrefix(items, i + 1);
  }

  /** When an item of a run fails, the run does, for the same reason. */
  lemma {:induction false} AllFails(r: Outcome, ty: Type, vs: seq<Value>, n: nat, pos: nat, room: nat)
    requires Wf(ty) && AllTyped(ty, vs) && n < |vs| && AllEncodable(ty, vs[..n])
    requires WriteReported(r, ty, vs[n], pos + |Flat(EncAll(ty, vs[..n]))|, room) && r.Fail?
    ensures AllReported(r, ty, vs, pos, room)
  {
    hide Checks, Fits, Enc, Good, Wf, Typed;
    if AllEncodable(ty, vs) {
      FlatPrefixAll(ty, vs, n);
      assert Encodable(ty, vs[n]);
    }
  }

  lemma {:induction false} NextEncodable(ty: Type, vs: seq<Value>, n: nat)
    requires Wf(ty) && n < |vs| && AllEncodable(ty, vs[..n]) && AllFit(ty, vs[..n])
    requires Encodable(ty, vs[n]) && Fits(ty, vs[n])
    ensures AllEncodable(ty, vs[..n + 1]) && AllFit(ty, vs[..n + 1])
    ensures Flat(EncAll(ty, vs[..n + 1])) == Flat(EncAll(ty, vs[..n])) + Enc(ty, vs[n])
  {
    hide Encodable, Fits, Enc, Wf;
    var us := vs[..n + 1];
    forall i | 0 <= i < n + 1 ensures Encodable(ty, us[i]) && Fits(ty, us[i]) {
      assert i < n ==> us[i] == vs[..n][i];
    }
    FlatPrefixAll(ty, vs[..n + 1], n);
    assert vs[..n + 1][..n] == vs[..n] && vs[..n + 1][..n + 1] == vs[..n + 1];
  }

  lemma {:induction false} WritePassed(ty: Type, v: Value, pos: nat, room: nat)
    requires Wf(ty) && Good(ty) && Typed(ty, v) && WriteReported(Pass, ty, v, pos, room)
    ensures Encodable(ty, v) && Fits(ty, v) && pos + |Enc(ty, v)| <= room
  {
  }

  lemma {:induction false} AllPassed(ty: Type, vs: seq<Value>, pos: nat, room: nat)
    requires AllEncodable(ty, vs[..|vs|]) && AllFit(ty, vs[..|vs|]) && pos + |Flat(EncAll(ty, vs[..|vs|]))| <= room
    ensures AllEncodable(ty, vs) && AllFit(ty, vs) && vs[..|vs|] == vs
    ensures AllReported(Pass, ty, vs, pos, room)
  {
    hide Encodable, Fits, Enc;
    assert vs[..|vs|] == vs;
  }

  lemma {:induction false} NoneYet(ty: Type, vs: seq<Value>)
    requires Wf(ty)
    ensures AllEncodable(ty, vs[..0]) && AllFit(ty, vs[..0]) && Flat(EncAll(ty, vs[..0])) == []
  {
    assert vs[..0] == [];
  }

  /** Writes the items of an array, or of a packed collection, back to back. */
  method WriteAll(w: Writer, ty: Type, vs: seq<Value>) returns (r: Outcome)
    requires w.Valid() && Wf(ty) && AllTyped(ty, vs)
    modifies w, w.buf
    ensures w.Valid()
    ensures AllReported(r, ty, vs, old(w.pos), w.buf.Length)
    ensures r.Pass? ==> AllEncodable(ty, vs) && w.Written() == old(w.Written()) + Flat(EncAll(ty, vs))
    decreases ty, 3
  {
    hide Checks, Fits, Enc, Good, Wf, Typed, WriteReported, AllReported, EncAll, Flat;
    ghost var base, room := w.Written(), w.buf.Length;
    r := Pass;
    NoneYet(ty, vs);
    for n := 0 to |vs|
      invariant w.Valid() && r.Pass?
      invariant AllEncodable(ty, vs[..n]) && AllFit(ty, vs[..n])
      invariant w.Written() == base + Flat(EncAll(ty, vs[..n]))
    {
      ghost var start := w.pos;
      r := Write(w, ty, vs[n]);
      if r.Fail? {
        AllFails(r, ty, vs, n, |base|, room);
        return;
      }
      WritePassed(ty, vs[n], start, room);
      NextEncodable(ty, vs, n);
    }
    AllPassed(ty, vs, |base|, room);
  }

  ghost predicate PrefixedReported(r: Outcome, ty: Type, vs: seq<Value>, count: nat, prefix: nat, pos: nat, room: nat) {
    var checked := AllEncodable(ty, vs);
    Reported(
      r,
      checked,
      checked && |vs| < Pow256(count) && PrefixesFit(EncAll(ty, vs), prefix) && AllFit(ty, vs),
      checked && pos + count + |JoinItems(EncAll(ty, vs), prefix)| <= room)
  }

  /** Where item `n` of a prefixed collection starts, past its prefix if it has one. */
  ghost function ItemStart(ty: Type, vs: seq<Value>, count: nat, prefix: nat, n: nat): nat
    requires n < |vs| && AllEncodable(ty, vs[..n])
  {
    count + |PrefixedRun(EncAll(ty, vs[..n]), prefix)| + if n + 1 < |vs| then prefix else 0
  }

  lemma {:induction false} ItemStartWithin(ty: Type, vs: seq<Value>, count: nat, prefix: nat, n: nat)
    requires n < |vs| && AllEncodable(ty, vs) && AllEncodable(ty, vs[..n])
    ensures ItemStart(ty, vs, count, prefix, n) + |Enc(ty, vs[n])| <= count + |JoinItems(EncAll(ty, vs), prefix)|
  {
    hide Encodable, Enc, JoinItems, PrefixedRun;
    var items := EncAll(ty, vs);
    RunWithin(items, prefix, n);
    assert items[..n] == EncAll(ty, vs[..n]);
  }

  /** How writing item `n` of a prefixed collection ends, `start` being where its bytes go. */
  ghost predicate ItemReported(r: Outcome, ty: Type, v: Value, prefix: Option<nat>, start: nat, room: nat)
    requires Wf(ty) && Good(ty) && Typed(ty, v)
  {
    Reported(
      r,
      Checked(ty, v),
      Checked(ty, v) && Fits(ty, v) && (prefix.Some? ==> |Enc(ty, v)| < Pow256(prefix.value)),
      Checked(ty, v) && start + |Enc(ty, v)| <= room)
  }

  /** When an item of a prefixed collection fails, the whole does, for the same reason. */
  lemma {:induction false} PrefixedFails(r: Outcome, ty: Type, vs: seq<Value>, count: nat, prefix: nat, n: nat, pos: nat, room: nat)
    requires Wf(ty) && Good(ty) && AllTyped(ty, vs) && n < |vs| && AllEncodable(ty, vs[..n]) && r.Fail?
    requires ItemReported(r, ty, vs[n], if n + 1 < |vs| then Some(prefix) else None, pos + ItemStart(ty, vs, count, prefix, n), room)
    ensures PrefixedReported(r, ty, vs, count, prefix, pos, room)
  {
    hide Checks, Fits, Enc, Good, Wf, Typed, JoinItems, ItemStart, Pow256;
    if AllEncodable(ty, vs) {
      ItemStartWithin(ty, vs, count, prefix, n);
      assert Encodable(ty, vs[n]);
      assert EncAll(ty, vs)[n] == Enc(ty, vs[n]);
    }
  }

  /** The first `n` items of a prefixed collection, the last of all without its length. */
  ghost function PrefixedSoFar(ty: Type, vs: seq<Value>, prefix: nat, n: nat): seq<byte>
    requires n <= |vs| && AllEncodable(ty, vs[..n])
  {
    if n == |vs| then JoinItems(EncAll(ty, vs[..n]), prefix) else PrefixedRun(EncAll(ty, vs[..n]), prefix)
  }

  /** Every item but the last of all has a length its prefix holds. */
  ghost predicate PrefixesSoFar(ty: Type, vs: seq<Value>, prefix: nat, n: nat)
    requires n <= |vs| && AllEncodable(ty, vs[..n])
  {
    forall i :: 0 <= i < n && i + 1 < |vs| ==> |EncAll(ty, vs[..n])[i]| < Pow256(prefix)
  }

  lemma {:induction false} FirstPrefixed(ty: Type, vs: seq<Value>, prefix: nat)
    requires Wf(ty)
    ensures AllEncodable(ty, vs[..0]) && AllFit(ty, vs[..0])
    ensures PrefixedSoFar(ty, vs, prefix, 0) == [] && PrefixesSoFar(ty, vs, prefix, 0)
  {
    NoItems(prefix);
    assert vs[..0] == [];
  }

  lemma {:induction false} NextPrefixed(ty: Type, vs: seq<Value>, prefix: nat, n: nat)
    requires Wf(ty) && n < |vs| && AllEncodable(ty, vs[..n]) && AllFit(ty, vs[..n]) && PrefixesSoFar(ty, vs, prefix, n)
    requires Encodable(ty, vs[n]) && Fits(ty, vs[n]) && (n + 1 < |vs| ==> |Enc(ty, vs[n])| < Pow256(prefix))
    ensures AllEncodable(ty, vs[..n + 1]) && AllFit(ty, vs[..n + 1]) && PrefixesSoFar(ty, vs, prefix, n + 1)
    ensures PrefixedSoFar(ty, vs, prefix, n + 1) == PrefixedSoFar(ty, vs, prefix, n)
              + if n + 1 < |vs| then Le(prefix, |Enc(ty, vs[n])|) + Enc(ty, vs[n]) else Enc(ty, vs[n])
  {
    hide Encodable, Enc, JoinItems, PrefixedRun, Wf, Fits, Le, Pow256;
    NextEncodable(ty, vs, n);
    var items := EncAll(ty, vs[..n + 1]);
    assert items[..n] == EncAll(ty, vs[..n]);
    assert items[..n + 1] == items;
    RunStep(items, prefix, n);
    if n + 1 == |vs| {
      JoinIsRun(items, prefix);
    }
  }

  /**
   The count first. A gap is left before every item that another follows, and told the item's
   length once that is known.
   */
  method WritePrefixed(w: Writer, ty: Type, vs: seq<Value>, count: nat, prefix: nat) returns (r: Outcome)
    requires w.Valid() && Wf(ty) && Good(ty) && AllTyped(ty, vs) && count in {1, 2} && prefix in {1, 2}
    modifies w, w.buf
    ensures w.Valid()
    ensures PrefixedReported(r, ty, vs, count, prefix, old(w.pos), w.buf.Length)
    ensures r.Pass? ==> w.Written() == old(w.Written()) + (Le(count, |vs|) + JoinItems(EncAll(ty, vs), prefix))
    decreases ty, 3
  {
    hide Checks, Fits, Enc, Good, Wf, Typed, JoinItems, PrefixedRun, Le, Pow256, PrefixesSoFar, EncAll, PrefixedSoFar,
      PrefixedReported, ItemReported, WriteReported, PrefixesFit, AllFit, ItemStart, Encodable, AllTyped;
    ghost var base, room := w.Written(), w.buf.Length;
    r := w.Len(count, |vs|);
    if r.Fail? {
      CountFails(r, ty, vs, count, prefix, |base|, room);
      return;
    }
    ghost var counted := w.Written();
    FirstPrefixed(ty, vs, prefix);
    for n := 0 to |vs|
      invariant w.Valid() && r.Pass?
      invariant AllEncodable(ty, vs[..n]) && AllFit(ty, vs[..n]) && PrefixesSoFar(ty, vs, prefix, n)
      invariant w.Written() == counted + PrefixedSoFar(ty, vs, prefix, n)
    {
      r := WritePrefixedItem(w, ty, vs, count, prefix, n, counted);
      if r.Fail? {
        return;
      }
    }
    PrefixedDone(ty, vs, prefix);
    PrefixedPassed(ty, vs, count, prefix, |base|, room);
  }

  /** Appends the next of prefixed items, `counted` being what precedes them all. */
  method WritePrefixedItem(w: Writer, ty: Type, vs: seq<Value>, count: nat, prefix: nat, n: nat, ghost counted: seq<byte>)
    returns (r: Outcome)
    requires w.Valid() && Wf(ty) && Good(ty) && AllTyped(ty, vs) && prefix in {1, 2} && n < |vs| && count <= |counted|
    requires AllEncodable(ty, vs[..n]) && AllFit(ty, vs[..n]) && PrefixesSoFar(ty, vs, prefix, n)
    requires w.Written() == counted + PrefixedSoFar(ty, vs, prefix, n)
    modifies w, w.buf
    ensures w.Valid()
    ensures r.Pass? ==> AllEncodable(ty, vs[..n + 1]) && AllFit(ty, vs[..n + 1]) && PrefixesSoFar(ty, vs, prefix, n + 1)
    ensures r.Pass? ==> w.Written() == counted + PrefixedSoFar(ty, vs, prefix, n + 1)
    ensures r.Fail? ==> PrefixedReported(r, ty, vs, count, prefix, |counted| - count, w.buf.Length)
    decreases ty, 2, 1
  {
    hide Checks, Fits, Enc, Good, Wf, Typed, JoinItems, PrefixedRun, Le, Pow256, PrefixesSoFar, EncAll, PrefixedSoFar,
      PrefixedReported, ItemReported, WriteReported, PrefixesFit, AllFit, ItemStart, Encodable;
    ghost var before, base, room := w.Written(), |counted| - count, w.buf.Length;
    ItemStarts(ty, vs, count, prefix, n);
    if n + 1 == |vs| {
      r := Write(w, ty, vs[n]);
      LastItemEnds(r, ty, vs[n], |before|, room);
    } else {
      r := WriteBehindLength(w, ty, vs[n], prefix);
    }
    if r.Fail? {
      PrefixedFails(r, ty, vs, count, prefix, n, base, room);
      return;
    }
    ItemPassed(ty, vs[n], if n + 1 < |vs| then Some(prefix) else None, base + ItemStart(ty, vs, count, prefix, n), room);
    NextPrefixed(ty, vs, prefix, n);
  }

  lemma {:induction false} CountFails(r: Outcome, ty: Type, vs: seq<Value>, count: nat, prefix: nat, pos: nat, room: nat)
    requires (r == Fail(Buffer) && pos + count > room) || (r == Fail(TooLarge) && |vs| >= Pow256(count))
    ensures PrefixedReported(r, ty, vs, count, prefix, pos, room)
  {
    hide Pow256, JoinItems, Fits, Enc;
  }

  lemma {:induction false} ItemStarts(ty: Type, vs: seq<Value>, count: nat, prefix: nat, n: nat)
    requires n < |vs| && AllEncodable(ty, vs[..n])
    ensures count + |PrefixedSoFar(ty, vs, prefix, n)| + (if n + 1 < |vs| then prefix else 0) == ItemStart(ty, vs, count, prefix, n)
  {
    hide PrefixedRun, JoinItems;
  }

  lemma {:induction false} LastItemEnds(r: Outcome, ty: Type, v: Value, start: nat, room: nat)
    requires Wf(ty) && Good(ty) && Typed(ty, v) && WriteReported(r, ty, v, start, room)
    ensures ItemReported(r, ty, v, None, start, room)
  {
  }

  lemma {:induction false} ItemPassed(ty: Type, v: Value, prefix: Option<nat>, start: nat, room: nat)
    requires Wf(ty) && Good(ty) && Typed(ty, v) && ItemReported(Pass, ty, v, prefix, start, room)
    ensures Encodable(ty, v) && Fits(ty, v) && (prefix.Some? ==> |Enc(ty, v)| < Pow256(prefix.value))
    ensures start + |Enc(ty, v)| <= room
  {
  }

  lemma {:induction false} PrefixedPassed(ty: Type, vs: seq<Value>, count: nat, prefix: nat, pos: nat, room: nat)
    requires AllEncodable(ty, vs) && AllFit(ty, vs) && PrefixesFit(EncAll(ty, vs), prefix) && |vs| < Pow256(count)
    requires pos + count + |JoinItems(EncAll(ty, vs), prefix)| <= room
    ensures PrefixedReported(Pass, ty, vs, count, prefix, pos, room)
  {
  }

  lemma {:induction false} PrefixedDone(ty: Type, vs: seq<Value>, prefix: nat)
    requires Wf(ty) && AllEncodable(ty, vs[..|vs|]) && AllFit(ty, vs[..|vs|]) && PrefixesSoFar(ty, vs, prefix, |vs|)
    ensures AllEncodable(ty, vs) && AllFit(ty, vs) && PrefixesFit(EncAll(ty, vs), prefix)
    ensures PrefixedSoFar(ty, vs, prefix, |vs|) == JoinItems(EncAll(ty, vs), prefix)
  {
    hide Encodable, Enc, JoinItems, PrefixedRun, Wf, Fits, Pow256;
    assert vs[..|vs|] == vs;
  }

  lemma {:induction false} ItemEnds(written: Outcome, patched: Outcome, ty: Type, v: Value, prefix: nat, start: nat, room: nat)
    requires Wf(ty) && Good(ty) && Typed(ty, v)
    ensures start > room ==> ItemReported(Fail(Buffer), ty, v, Some(prefix), start, room)
    ensures written.Fail? && WriteReported(written, ty, v, start, room) ==> ItemReported(written, ty, v, Some(prefix), start, room)
    ensures (WriteReported(Pass, ty, v, start, room) && patched == if |Enc(ty, v)| < Pow256(prefix) then Pass else Fail(TooLarge))
              ==> ItemReported(patched, ty, v, Some(prefix), start, room)
  {
    hide Checks, Fits, Enc, Typed, Good, Wf, Pow256;
  }

  /** Writes an item behind its length, which is filled in last. */
  method WriteBehindLength(w: Writer, ty: Type, v: Value, prefix: nat) returns (r: Outcome)
    requires w.Valid() && Wf(ty) && Good(ty) && Typed(ty, v) && prefix in {1, 2}
    modifies w, w.buf
    ensures w.Valid()
    ensures ItemReported(r, ty, v, Some(prefix), old(w.pos) + prefix, w.buf.Length)
    ensures r.Pass? ==> w.Written() == old(w.Written()) + (Le(prefix, |Enc(ty, v)|) + Enc(ty, v))
    decreases ty, 2, 0
  {
    hide Checks, Fits, Enc, Good, Wf, Typed, Le, Pow256, Splice, Zeros, ItemReported, WriteReported;
    var at;
    ghost var start, room := w.Written(), w.buf.Length;
    r, at := w.ZerosAt(prefix);
    if r.Fail? {
      ItemEnds(r, r, ty, v, prefix, |start| + prefix, room);
      return;
    }
    r := Write(w, ty, v);
    if r.Fail? {
      ItemEnds(r, r, ty, v, prefix, |start| + prefix, room);
      return;
    }
    WritePassed(ty, v, |start| + prefix, room);
    var size := w.pos - at - prefix;
    FillLength(start, prefix, Enc(ty, v));
    r := w.Patch(at, prefix, size);
    ItemEnds(Pass, r, ty, v, prefix, |start| + prefix, room);
  }

  // ----- objects

  /** The fields of an object to write: values of the owned type, of a layout that fits. */
  predicate ObjectTyped(fields: seq<Field>, os: seq<Option<Value>>) {
    && WfFields(fields) && Wf(Struct(fields)) && Good(Struct(fields)) && |os| == |fields|
    && forall i :: 0 <= i < |fields| ==> FieldTyped(fields[i], os[i])
  }

  /** Every field passes its checks. */
  predicate ObjectChecked(fields: seq<Field>, os: seq<Option<Value>>)
    requires ObjectTyped(fields, os)
  {
    forall i :: 0 <= i < |fields| ==> FieldMeets(fields[i], os[i], false)
  }

  predicate FieldWritten(fields: seq<Field>, os: seq<Option<Value>>, i: nat)
    requires ObjectTyped(fields, os) && i < |fields|
  {
    FieldMeets(fields[i], os[i], false) && FieldFits(fields[i], os[i])
  }

  /** The parts of the object, once all its fields pass their checks. */
  predicate ArePartsOf(fields: seq<Field>, os: seq<Option<Value>>, ps: seq<Part>)
    requires ObjectTyped(fields, os)
  {
    ObjectChecked(fields, os) ==> ps == Parts(fields, os)
  }

  predicate FieldReady(field: Field, o: Option<Value>) {
    Wf(field.ty) && Good(field.ty) && !field.ty.Pair? && FieldTyped(field, o)
  }

  lemma {:induction false} ObjectPart(fields: seq<Field>, os: seq<Option<Value>>, ps: seq<Part>, i: nat)
    requires ObjectTyped(fields, os) && ArePartsOf(fields, os, ps) && i < |fields|
    ensures FieldReady(fields[i], os[i]) && Members(fields)[i] == MemberOf(fields[i])
    ensures ObjectChecked(fields, os) ==>
              && FieldMeets(fields[i], os[i], false)
              && PartsFit(Members(fields), ps) && ps[i] == PartOf(fields[i], os[i])
  {
  }

  lemma {:induction false} FlagChecked(ty: Type, v: Value)
    requires Wf(ty) && IsFlag(ty) && Typed(ty, v)
    ensures Checks(ty, v, false) && (Good(ty) ==> Fits(ty, v))
    decreases ty
  {
    if ty.Newtype? {
      FlagChecked(ty.target, v.inner);
    }
  }

  /** The bits a field sets aside: its value for a `bool`, and whether an optional one is present. */
  function FieldBits(field: Field, o: Option<Value>): seq<bool>
    requires Wf(field.ty) && FieldTyped(field, o)
  {
    if IsFlag(field.ty) then
      if field.optional then [o.Some?, o.Some? && FlagOf(field.ty, o.value)] else [FlagOf(field.ty, o.value)]
    else if field.optional then [o.Some?] else []
  }

  lemma {:induction false} FieldBitsArePiece(field: Field, o: Option<Value>)
    requires Wf(field.ty) && Good(field.ty) && !field.ty.Pair? && FieldTyped(field, o) && FieldMeets(field, o, false)
    ensures BitPiece(MemberOf(field), PartOf(field, o)) == FieldBits(field, o)
  {
    hide Typed, Wf, Good, Checks, Enc, SizeOf, FlagOf, IsFlag;
  }

  /** Whether bit `k` is one of `piece`, set from bit `base` on, and set. */
  predicate PieceBit(piece: seq<bool>, base: nat, k: nat) {
    base <= k < base + |piece| && piece[k - base]
  }

  /** Sets the bits of one field in a bitmap. */
  method SetFieldBits(field: Field, o: Option<Value>, slot: Slot, ghost base: nat, before: seq<byte>) returns (bits: seq<byte>)
    requires Wf(field.ty) && FieldTyped(field, o) && base + MemberOf(field).Bits() <= 8 * |before|
    requires slot.AtSlot? ==> MemberOf(field).IsAt()
    requires slot.BitSlot? ==> IsFlag(field.ty) && !field.optional && slot.bit == base
    requires slot.OptionalBitSlot? ==> IsFlag(field.ty) && field.optional && slot.presence == base && slot.value == base + 1
    requires slot.OptionalSlot? ==> !IsFlag(field.ty) && field.optional && slot.presence == base
    requires slot.VarSlot? ==> !IsFlag(field.ty) && slot.optionalPresence == if field.optional then Some(base) else None
    ensures |bits| == |before|
    ensures forall k: nat :: k < 8 * |bits| ==> (Bit(bits, k) <==> Bit(before, k) || PieceBit(FieldBits(field, o), base, k))
  {
    hide Typed, Wf, SizeOf, Bit;
    bits := before;
    match slot {
      case BitSlot(bit) =>
        if FlagOf(field.ty, o.value) {
          bits := SetBit(bits, bit);
        }
      case OptionalBitSlot(presence, value) =>
        if o.Some? {
          bits := SetBit(bits, presence);
          if FlagOf(field.ty, o.value) {
            bits := SetBit(bits, value);
          }
        }
      case OptionalSlot(presence) =>
        if o.Some? {
          bits := SetBit(bits, presence);
        }
      case VarSlot(_, presence) =>
        if presence.Some? && o.Some? {
          bits := SetBit(bits, presence.value);
        }
      case AtSlot(_) =>
    }
  }

  /** The bitmap: flags, and which optional values are present. */
  method PackBitmap(fields: seq<Field>, os: seq<Option<Value>>, ghost ps: seq<Part>) returns (bits: seq<byte>)
    requires ObjectTyped(fields, os) && ArePartsOf(fields, os, ps)
    ensures |bits| == Bitmap(Members(fields))
    ensures ObjectChecked(fields, os) ==> bits == BitSection(Members(fields), ps)
  {
    hide Typed, Wf, Good, Checks, SizeOf, Enc, Bit;
    var ms := Members(fields);
    bits := Zeros(Bitmap(ms));
    ghost var ok := ObjectChecked(fields, os);
    if ok {
      NoBits(ms, ps);
    }
    for i := 0 to |fields|
      invariant |bits| == Bitmap(ms)
      invariant ok ==> BitsBelow(ms, ps, bits, Bits(ms[..i]))
    {
      PrefixStep(ms, i);
      ghost var before := bits;
      assert ms[i] == MemberOf(fields[i]) && FieldTyped(fields[i], os[i]);
      bits := SetFieldBits(fields[i], os[i], SlotOf(ms, i), Bits(ms[..i]), bits);
      if ok {
        ObjectPart(fields, os, ps, i);
        FieldBitsArePiece(fields[i], os[i]);
        NextBits(ms, ps, before, bits, i);
      }
    }
    if ok {
      assert ms[..|fields|] == ms;
      BitmapComplete(ms, ps, bits);
    }
  }

  /** The bits below `n` are those of the parts, and the others are clear. */
  ghost predicate BitsBelow(ms: seq<Member>, ps: seq<Part>, bits: seq<byte>, n: nat) {
    && PartsFit(ms, ps) && |bits| == Bitmap(ms) && n <= Bits(ms) == |Flat(BitPieces(ms, ps))|
    && forall k: nat :: k < 8 * |bits| ==> (Bit(bits, k) <==> k < n && Flat(BitPieces(ms, ps))[k])
  }

  lemma {:induction false} NoBits(ms: seq<Member>, ps: seq<Part>)
    requires PartsFit(ms, ps)
    ensures BitsBelow(ms, ps, Zeros(Bitmap(ms)), Bits(ms[..0]))
  {
    BitSectionSize(ms, ps);
    ZeroBits(Bitmap(ms));
    assert ms[..0] == [];
  }

  lemma {:induction false} ZeroBits(n: nat)
    ensures forall k: nat :: k < 8 * n ==> !Bit(Zeros(n), k)
  {
    forall k: nat | k < 8 * n ensures !Bit(Zeros(n), k) {
      ShrBound(0, k % 8, 0);
      assert Zeros(n)[k / 8] == 0;
    }
  }

  /** Setting the bits of field `i` that its part claims. */
  lemma {:induction false} NextBits(ms: seq<Member>, ps: seq<Part>, before: seq<byte>, bits: seq<byte>, i: nat)
    requires i < |ms| && BitsBelow(ms, ps, before, Bits(ms[..i])) && |bits| == |before|
    requires forall k: nat :: k < 8 * |bits| ==>
               (Bit(bits, k) <==> Bit(before, k) || PieceBit(BitPiece(ms[i], ps[i]), Bits(ms[..i]), k))
    ensures BitsBelow(ms, ps, bits, Bits(ms[..i + 1]))
  {
    PrefixStep(ms, i);
    var base := Bits(ms[..i]);
    forall k: nat | k < 8 * |bits|
      ensures Bit(bits, k) <==> k < Bits(ms[..i + 1]) && Flat(BitPieces(ms, ps))[k]
    {
      if base <= k < base + ms[i].Bits() {
        BitPieceAt(ms, ps, i, k - base);
      }
    }
  }

  lemma {:induction false} BitmapComplete(ms: seq<Member>, ps: seq<Part>, bits: seq<byte>)
    requires BitsBelow(ms, ps, bits, Bits(ms))
    ensures bits == BitSection(ms, ps)
  {
    forall k: nat | k < 8 * |bits| ensures Bit(bits, k) == Bit(BitSection(ms, ps), k) {
      PackBitsBit(Flat(BitPieces(ms, ps)), k);
    }
    BitsDetermine(bits, BitSection(ms, ps));
  }

  // Each of the three passes over the fields writes one section of the object.

  datatype Section = AtSection | OptionalSection | VarSection

  predicate InSection(m: Member, section: Section) {
    match section
    case AtSection => m.IsAt()
    case OptionalSection => m.IsOptional()
    case VarSection => m.IsVar()
  }

  /** The bytes field `i` adds to a section. */
  function SectionPiece(m: Member, p: Part, section: Section): seq<byte> {
    if !InSection(m, section) then [] else if section.AtSection? then PlainPiece(m, p) else ChunkBytes(p)
  }

  function SectionPieces(ms: seq<Member>, ps: seq<Part>, section: Section): (r: seq<seq<byte>>)
    requires |ms| == |ps|
    ensures |r| == |ms|
  {
    seq(|ms|, i requires 0 <= i < |ms| => SectionPiece(ms[i], ps[i], section))
  }

  /** The fields of a section, written. */
  predicate SectionWritten(fields: seq<Field>, os: seq<Option<Value>>, section: Section, n: nat)
    requires ObjectTyped(fields, os) && n <= |fields|
  {
    forall i :: 0 <= i < n && InSection(MemberOf(fields[i]), section) ==> FieldWritten(fields, os, i)
  }

  /** The bytes each field adds to a section, once all fields pass their checks. */
  predicate ArePieces(fields: seq<Field>, os: seq<Option<Value>>, ps: seq<Part>, section: Section, pieces: seq<seq<byte>>)
    requires ObjectTyped(fields, os) && ArePartsOf(fields, os, ps)
  {
    && |pieces| == |fields|
    && (ObjectChecked(fields, os) ==> forall i :: 0 <= i < |fields| ==> pieces[i] == SectionPiece(MemberOf(fields[i]), ps[i], section))
  }

  /** Why writing a section fails, once the object's fields pass their checks. */
  ghost predicate SectionFails(r: Outcome, fields: seq<Field>, os: seq<Option<Value>>, pieces: seq<seq<byte>>, pos: nat, room: nat)
    requires ObjectTyped(fields, os)
  {
    r.Fail? && (ObjectChecked(fields, os) ==>
      || (r.error.Buffer? && pos + |Flat(pieces)| > room)
      || (r.error.TooLarge? && exists i :: 0 <= i < |fields| && !FieldWritten(fields, os, i)))
  }

  /** The piece of a section that is the encoding of a field's value. */
  lemma {:induction false} SectionValue(fields: seq<Field>, os: seq<Option<Value>>, ps: seq<Part>, section: Section, pieces: seq<seq<byte>>, i: nat)
    requires ObjectTyped(fields, os) && ArePartsOf(fields, os, ps) && ArePieces(fields, os, ps, section, pieces)
    requires i < |fields| && ObjectChecked(fields, os)
    ensures FieldReady(fields[i], os[i]) && FieldMeets(fields[i], os[i], false)
    ensures pieces[i] == if InSection(MemberOf(fields[i]), section) && os[i].Some? then Enc(fields[i].ty, os[i].value) else []
  {
    hide Typed, Wf, Good, Checks, SizeOf, Enc;
    ObjectPart(fields, os, ps, i);
  }

  lemma {:induction false} SectionFailsAt(r: Outcome, fields: seq<Field>, os: seq<Option<Value>>, pieces: seq<seq<byte>>, i: nat, pos: nat, room: nat)
    requires ObjectTyped(fields, os) && i < |fields| == |pieces| && FieldReady(fields[i], os[i])
    requires os[i].Some? && r.Fail?
    requires ObjectChecked(fields, os) ==>
               && FieldMeets(fields[i], os[i], false) && pieces[i] == Enc(fields[i].ty, os[i].value)
               && WriteReported(r, fields[i].ty, os[i].value, pos + |Flat(pieces[..i])|, room)
    ensures SectionFails(r, fields, os, pieces, pos, room)
  {
    hide Typed, Wf, Good, Checks, SizeOf, Enc, Fits, ObjectTyped;
    if ObjectChecked(fields, os) {
      FlatPiece(pieces, i);
      assert r.error.TooLarge? ==> !FieldWritten(fields, os, i);
    }
  }

  /** Writes the fixed fields, or the optional ones present, in declaration order. */
  method WriteSection(w: Writer, fields: seq<Field>, os: seq<Option<Value>>, section: Section,
      ghost ps: seq<Part>, ghost pieces: seq<seq<byte>>) returns (r: Outcome)
    requires w.Valid() && ObjectTyped(fields, os) && ArePartsOf(fields, os, ps) && !section.VarSection?
    requires ArePieces(fields, os, ps, section, pieces)
    modifies w, w.buf
    ensures w.Valid() && (r.Pass? ==> old(w.pos) <= w.pos)
    ensures r.Pass? ==> SectionWritten(fields, os, section, |fields|)
    ensures r.Pass? && ObjectChecked(fields, os) ==> w.Written() == old(w.Written()) + Flat(pieces)
    ensures r.Fail? ==> SectionFails(r, fields, os, pieces, old(w.pos), w.buf.Length)
    decreases fields, 0
  {
    hide Typed, Wf, Good, Checks, SizeOf, Enc, Fits, ArePieces, ArePartsOf, ObjectTyped;
    ghost var ok, base := ObjectChecked(fields, os), w.Written();
    PiecesCount(fields, os, ps, section, pieces);
    r := Pass;
    for i := 0 to |fields|
      invariant w.Valid() && r.Pass? && old(w.pos) <= w.pos
      invariant SectionWritten(fields, os, section, i)
      invariant ok ==> w.Written() == base + Flat(pieces[..i])
    {
      r := WriteSectionField(w, fields, os, section, i, ps, pieces, base);
      if r.Fail? {
        return;
      }
    }
    assert pieces[..|fields|] == pieces;
  }

  lemma {:induction false} PiecesCount(fields: seq<Field>, os: seq<Option<Value>>, ps: seq<Part>, section: Section, pieces: seq<seq<byte>>)
    requires ObjectTyped(fields, os) && ArePartsOf(fields, os, ps) && ArePieces(fields, os, ps, section, pieces)
    ensures |os| == |fields| == |pieces|
  {
  }

  method WriteSectionField(w: Writer, fields: seq<Field>, os: seq<Option<Value>>, section: Section, i: nat,
      ghost ps: seq<Part>, ghost pieces: seq<seq<byte>>, ghost base: seq<byte>) returns (r: Outcome)
    requires w.Valid() && ObjectTyped(fields, os) && ArePartsOf(fields, os, ps) && !section.VarSection?
    requires ArePieces(fields, os, ps, section, pieces) && i < |fields| == |pieces|
    requires ObjectChecked(fields, os) ==> w.Written() == base + Flat(pieces[..i])
    modifies w, w.buf
    ensures w.Valid() && (r.Pass? ==> old(w.pos) <= w.pos)
    ensures r.Pass? && InSection(MemberOf(fields[i]), section) ==> FieldWritten(fields, os, i)
    ensures r.Pass? && ObjectChecked(fields, os) ==> w.Written() == base + Flat(pieces[..i + 1])
    ensures r.Fail? ==> SectionFails(r, fields, os, pieces, |base|, w.buf.Length)
    decreases fields[i], 0
  {
    hide Typed, Wf, Good, Checks, SizeOf, Enc, Fits, ArePieces, ArePartsOf, ObjectTyped, ObjectChecked;
    ObjectPart(fields, os, ps, i);
    PiecesCount(fields, os, ps, section, pieces);
    if ObjectChecked(fields, os) {
      SectionValue(fields, os, ps, section, pieces, i);
      FlatStep(pieces, i);
    }
    r := Pass;
    if InSection(MemberOf(fields[i]), section) && os[i].Some? {
      r := Write(w, fields[i].ty, os[i].value);
      if r.Fail? {
        SectionFailsAt(r, fields, os, pieces, i, |base|, w.buf.Length);
      }
    }
  }

  // The last pass writes the var section, filling in each boundary as its slot ends.

  /** The boundaries of which the first `k` are filled in, and the others still zero. */
  ghost function Filled(start: nat, width: nat, chunks: seq<seq<byte>>, n: nat, k: nat): (b: seq<byte>)
    requires k <= n <= |chunks|
    ensures |b| == Times(n, width)
  {
    TimesMonotone(k, n, width);
    BoundaryBytes(start, width, chunks, k) + Zeros(Times(n, width) - Times(k, width))
  }

  /** Filling in the next boundary, wherever the bytes around it are. */
  lemma {:induction false} FillNext(head: seq<byte>, start: nat, width: nat, chunks: seq<seq<byte>>, n: nat, k: nat, rest: seq<byte>)
    requires k < n <= |chunks|
    ensures |head| + Times(k, width) + width <= |head + Filled(start, width, chunks, n, k) + rest|
    ensures Splice(head + Filled(start, width, chunks, n, k) + rest, |head| + Times(k, width), Le(width, EndOf(start, chunks, k)))
         == head + Filled(start, width, chunks, n, k + 1) + rest
  {
    hide Le, EndOf, Zeros, Splice;
    TimesMonotone(k + 1, n, width);
    TimesMonotone(k, n, width);
    var left := Times(n, width) - Times(k + 1, width);
    ZerosSplit(Times(n, width) - Times(k, width), width);
    FillHole(head, BoundaryBytes(start, width, chunks, k), Zeros(width), Zeros(left), rest, Le(width, EndOf(start, chunks, k)));
  }

  /** Filling in a hole after what is done, with more holes left. */
  lemma {:induction false} FillHole(head: seq<byte>, done: seq<byte>, hole: seq<byte>, left: seq<byte>, rest: seq<byte>, b: seq<byte>)
    requires |hole| == |b|
    ensures Splice(head + (done + (hole + left)) + rest, |head| + |done|, b) == head + (done + b + left) + rest
  {
  }

  /** What the var section's pass leaves fixed: where the object starts and what precedes and follows its boundaries. */
  datatype Frame = Frame(start: nat, head: seq<byte>, optionals: seq<byte>)

  ghost predicate FrameOf(fields: seq<Field>, os: seq<Option<Value>>, ps: seq<Part>, f: Frame)
    requires ObjectTyped(fields, os) && ArePartsOf(fields, os, ps)
  {
    ObjectChecked(fields, os) ==>
      && |f.head| == f.start + Boundaries(Members(fields))
      && VarStart(Members(fields), ps) == Head(Members(fields)) + |f.optionals|
  }

  /** What is written once the slots of the first `i` fields are. */
  ghost function VarsWritten(ms: seq<Member>, ps: seq<Part>, f: Frame, i: nat): seq<byte>
    requires PartsFit(ms, ps) && i <= |ms|
  {
    PrefixSums(ms, i);
    var k, n, chunks := Vars(ms[..i]), BoundaryCount(ms), VarChunks(ms, ps);
    f.head + Filled(VarStart(ms, ps), BoundaryWidth(ms), chunks, n, Min(k, n)) + (f.optionals + Flat(chunks[..k]))
  }

  /** Why writing the var section fails, once the object's fields pass their checks. */
  ghost predicate VarsFail(r: Outcome, fields: seq<Field>, os: seq<Option<Value>>, ps: seq<Part>, start: nat, room: nat)
    requires ObjectTyped(fields, os) && ArePartsOf(fields, os, ps)
  {
    r.Fail? && (ObjectChecked(fields, os) ==>
      || (r.error.Buffer? && start + |Assemble(Members(fields), ps)| > room)
      || (r.error.TooLarge? && !BoundariesFit(Members(fields), ps))
      || (r.error.TooLarge? && exists i :: 0 <= i < |fields| && !FieldWritten(fields, os, i)))
  }

  lemma {:induction false} VarsWrittenSize(ms: seq<Member>, ps: seq<Part>, f: Frame, i: nat)
    requires PartsFit(ms, ps) && i <= |ms|
    requires |f.head| == f.start + Boundaries(ms) && VarStart(ms, ps) == Head(ms) + |f.optionals|
    ensures Vars(ms[..i]) <= Vars(ms)
    ensures |VarsWritten(ms, ps, f, i)| == f.start + VarStart(ms, ps) + |Flat(VarChunks(ms, ps)[..Vars(ms[..i])])|
  {
    PrefixSums(ms, i);
  }

  /** After the value of field `i`, of slot `k`, and before its boundary. */
  lemma {:induction false} VarStep(ms: seq<Member>, ps: seq<Part>, f: Frame, i: nat)
    requires PartsFit(ms, ps) && i < |ms| && ms[i].IsVar()
    requires |f.head| == f.start + Boundaries(ms) && VarStart(ms, ps) == Head(ms) + |f.optionals|
    ensures var k, n, chunks, w := Vars(ms[..i]), BoundaryCount(ms), VarChunks(ms, ps), BoundaryWidth(ms);
            var b := VarsWritten(ms, ps, f, i) + ChunkBytes(ps[i]);
            && k < Vars(ms) && |b| == f.start + EndOf(VarStart(ms, ps), chunks, k) <= f.start + |Assemble(ms, ps)|
            && (k + 1 == Vars(ms) ==> b == VarsWritten(ms, ps, f, i + 1))
            && (k + 1 < Vars(ms) ==>
                  && |f.head| + Times(k, w) + w <= |b|
                  && Splice(b, |f.head| + Times(k, w), Le(w, |b| - f.start)) == VarsWritten(ms, ps, f, i + 1))
  {
    hide Assemble, BoundaryWidth, Filled, VarChunks, VarStart, Boundaries, Splice;
    var k, n, chunks, w, start := Vars(ms[..i]), BoundaryCount(ms), VarChunks(ms, ps), BoundaryWidth(ms), VarStart(ms, ps);
    SlotStep(ms, i);
    VarChunkAt(ms, ps, i);
    VarsWrittenSize(ms, ps, f, i);
    FlatPiece(chunks, k);
    FlatStep(chunks, k);
    AssembledSize(ms, ps);
    var b := VarsWritten(ms, ps, f, i) + ChunkBytes(ps[i]);
    assert b == f.head + Filled(start, w, chunks, n, Min(k, n)) + (f.optionals + Flat(chunks[..k + 1]));
    if k < n {
      FillNext(f.head, start, w, chunks, n, k, f.optionals + Flat(chunks[..k + 1]));
    }
  }

  /** Writes the slots of the var section, ending each with its boundary but the last. */
  method WriteVars(w: Writer, fields: seq<Field>, os: seq<Option<Value>>, start: nat, bounds: nat,
      ghost ps: seq<Part>, ghost f: Frame) returns (r: Outcome)
    requires w.Valid() && ObjectTyped(fields, os) && ArePartsOf(fields, os, ps) && FrameOf(fields, os, ps, f)
    requires f.start == start && |f.head| == bounds && start <= w.pos
    requires bounds + Times(BoundaryCount(Members(fields)), BoundaryWidth(Members(fields))) <= w.pos
    requires ObjectChecked(fields, os) ==> w.Written() == VarsWritten(Members(fields), ps, f, 0)
    modifies w, w.buf
    ensures w.Valid()
    ensures r.Pass? ==> SectionWritten(fields, os, VarSection, |fields|)
    ensures r.Pass? && ObjectChecked(fields, os) ==>
              BoundariesFit(Members(fields), ps) && w.Written() == VarsWritten(Members(fields), ps, f, |fields|)
    ensures r.Fail? ==> VarsFail(r, fields, os, ps, start, w.buf.Length)
    decreases fields, 0
  {
    hide Typed, Wf, Good, Checks, SizeOf, Enc, Fits, VarsWritten, FrameOf, VarsFail, BoundariesFitTo;
    ghost var ok := ObjectChecked(fields, os);
    var ms := Members(fields);
    var width := BoundaryWidth(ms);
    r := Pass;
    if ok {
      NoBoundaries(ms, ps);
    }
    for i := 0 to |fields|
      invariant w.Valid() && r.Pass? && start <= w.pos
      invariant bounds + Times(BoundaryCount(ms), width) <= w.pos
      invariant SectionWritten(fields, os, VarSection, i)
      invariant ok ==> w.Written() == VarsWritten(ms, ps, f, i)
      invariant ok ==> BoundariesFitTo(ms, ps, Vars(ms[..i]))
    {
      r := WriteVarField(w, fields, os, start, bounds, i, ps, f);
      if r.Fail? {
        return;
      }
    }
    if ok {
      AllBoundaries(ms, ps);
    }
  }

  /** A field outside the var section leaves it as it is. */
  lemma {:induction false} VarSkip(ms: seq<Member>, ps: seq<Part>, f: Frame, i: nat)
    requires PartsFit(ms, ps) && i < |ms| && !ms[i].IsVar()
    ensures VarsWritten(ms, ps, f, i + 1) == VarsWritten(ms, ps, f, i) && Vars(ms[..i + 1]) == Vars(ms[..i])
  {
    SlotStep(ms, i);
  }

  lemma {:induction false} VarChunkIs(fields: seq<Field>, os: seq<Option<Value>>, ps: seq<Part>, i: nat)
    requires ObjectTyped(fields, os) && ArePartsOf(fields, os, ps) && ObjectChecked(fields, os)
    requires i < |fields| && MemberOf(fields[i]).IsVar()
    ensures FieldReady(fields[i], os[i]) && FieldMeets(fields[i], os[i], false) && |ps| == |fields|
    ensures ChunkBytes(ps[i]) == if os[i].Some? then Enc(fields[i].ty, os[i].value) else []
  {
    ObjectPart(fields, os, ps, i);
  }

  /** When the value of a slot fails, the object does, for the same reason. */
  lemma {:induction false} VarValueFails(r: Outcome, fields: seq<Field>, os: seq<Option<Value>>, ps: seq<Part>, f: Frame, i: nat, pos: nat, room: nat)
    requires ObjectTyped(fields, os) && ArePartsOf(fields, os, ps) && FrameOf(fields, os, ps, f)
    requires i < |fields| && MemberOf(fields[i]).IsVar() && FieldReady(fields[i], os[i]) && os[i].Some? && r.Fail?
    requires WriteReported(r, fields[i].ty, os[i].value, pos, room)
    requires ObjectChecked(fields, os) ==> pos == |VarsWritten(Members(fields), ps, f, i)|
    ensures VarsFail(r, fields, os, ps, f.start, room)
  {
    hide Typed, Wf, Good, Checks, SizeOf, Enc, Fits, VarsWritten, Assemble, EndOf, Splice;
    if ObjectChecked(fields, os) {
      VarChunkIs(fields, os, ps, i);
      VarStep(Members(fields), ps, f, i);
      assert r.error.TooLarge? ==> !FieldWritten(fields, os, i);
    }
  }

  lemma {:induction false} VarEndFails(r: Outcome, fields: seq<Field>, os: seq<Option<Value>>, ps: seq<Part>, k: nat, start: nat, room: nat)
    requires ObjectTyped(fields, os) && ArePartsOf(fields, os, ps) && r == Fail(TooLarge) && k < BoundaryCount(Members(fields))
    requires ObjectChecked(fields, os) ==>
               EndOf(VarStart(Members(fields), ps), VarChunks(Members(fields), ps), k) >= Pow256(BoundaryWidth(Members(fields)))
    ensures VarsFail(r, fields, os, ps, start, room)
  {
  }

  lemma {:induction false} NextBoundaryFits(ms: seq<Member>, ps: seq<Part>, i: nat)
    requires |ms| == |ps| && i < |ms| && ms[i].IsVar() && BoundariesFitTo(ms, ps, Vars(ms[..i]))
    requires Vars(ms[..i]) < Vars(ms) && Vars(ms[..i + 1]) == Vars(ms[..i]) + 1
    requires Vars(ms[..i]) + 1 < Vars(ms) ==>
               EndOf(VarStart(ms, ps), VarChunks(ms, ps), Vars(ms[..i])) < Pow256(BoundaryWidth(ms))
    ensures BoundariesFitTo(ms, ps, Vars(ms[..i + 1]))
  {
    hide EndOf, VarStart, VarChunks, Pow256;
  }

  lemma {:induction false} NoBoundaries(ms: seq<Member>, ps: seq<Part>)
    requires |ms| == |ps|
    ensures BoundariesFitTo(ms, ps, Vars(ms[..0]))
  {
  }

  lemma {:induction false} AllBoundaries(ms: seq<Member>, ps: seq<Part>)
    requires |ms| == |ps| && BoundariesFitTo(ms, ps, Vars(ms[..|ms|]))
    ensures BoundariesFit(ms, ps)
  {
    hide EndOf, VarStart, VarChunks, Pow256;
    assert ms[..|ms|] == ms;
  }

  /** The boundaries of the first `n` slots fit their width. */
  predicate BoundariesFitTo(ms: seq<Member>, ps: seq<Part>, n: nat)
    requires |ms| == |ps|
  {
    forall k :: 0 <= k < n && k < BoundaryCount(ms) ==> EndOf(VarStart(ms, ps), VarChunks(ms, ps), k) < Pow256(BoundaryWidth(ms))
  }

  method WriteVarField(w: Writer, fields: seq<Field>, os: seq<Option<Value>>, start: nat, bounds: nat, i: nat,
      ghost ps: seq<Part>, ghost f: Frame) returns (r: Outcome)
    requires w.Valid() && ObjectTyped(fields, os) && ArePartsOf(fields, os, ps) && FrameOf(fields, os, ps, f)
    requires f.start == start && |f.head| == bounds && start <= w.pos && i < |fields|
    requires bounds + Times(BoundaryCount(Members(fields)), BoundaryWidth(Members(fields))) <= w.pos
    requires ObjectChecked(fields, os) ==> w.Written() == VarsWritten(Members(fields), ps, f, i)
    requires ObjectChecked(fields, os) ==> BoundariesFitTo(Members(fields), ps, Vars(Members(fields)[..i]))
    modifies w, w.buf
    ensures w.Valid() && (r.Pass? ==> old(w.pos) <= w.pos)
    ensures r.Pass? && MemberOf(fields[i]).IsVar() ==> FieldWritten(fields, os, i)
    ensures r.Pass? && ObjectChecked(fields, os) ==>
              && w.Written() == VarsWritten(Members(fields), ps, f, i + 1)
              && BoundariesFitTo(Members(fields), ps, Vars(Members(fields)[..i + 1]))
    ensures r.Fail? ==> VarsFail(r, fields, os, ps, start, w.buf.Length)
    decreases fields[i], 0
  {
    hide Typed, Wf, Good, Checks, SizeOf, Enc, Fits, VarsWritten, FrameOf, VarsFail, BoundariesFitTo, EndOf, Assemble, VarStart,
      VarChunks, Splice, WriteReported, Le, Pow256, ObjectTyped, ArePartsOf, ObjectChecked, PartFits;
    WellFormed(fields, os);
    ghost var ok, room := ObjectChecked(fields, os), w.buf.Length;
    var ms := Members(fields);
    ObjectPart(fields, os, ps, i);
    r := Pass;
    if !ms[i].IsVar() {
      if ok {
        VarSkip(ms, ps, f, i);
      }
      return;
    }
    if ok {
      VarChunkIs(fields, os, ps, i);
    }
    if os[i].Some? {
      ghost var pos := w.pos;
      r := Write(w, fields[i].ty, os[i].value);
      if r.Fail? {
        VarValueFails(r, fields, os, ps, f, i, pos, room);
        return;
      }
      WritePassed(fields[i].ty, os[i].value, pos, room);
    } else if ok {
      assert w.Written() + ChunkBytes(ps[i]) == w.Written();
    }
    r := EndSlot(w, fields, os, start, bounds, i, ps, f);
  }

  /** Ends the slot of a var field with its boundary, unless it is the last. */
  method EndSlot(w: Writer, fields: seq<Field>, os: seq<Option<Value>>, start: nat, bounds: nat, i: nat,
      ghost ps: seq<Part>, ghost f: Frame) returns (r: Outcome)
    requires w.Valid() && ObjectTyped(fields, os) && ArePartsOf(fields, os, ps) && FrameOf(fields, os, ps, f)
    requires f.start == start && |f.head| == bounds && start <= w.pos && i < |fields| && MemberOf(fields[i]).IsVar()
    requires bounds + Times(BoundaryCount(Members(fields)), BoundaryWidth(Members(fields))) <= w.pos
    requires ObjectChecked(fields, os) ==>
               && PartsFit(Members(fields), ps)
               && w.Written() == VarsWritten(Members(fields), ps, f, i) + ChunkBytes(ps[i])
    requires ObjectChecked(fields, os) ==> BoundariesFitTo(Members(fields), ps, Vars(Members(fields)[..i]))
    modifies w, w.buf
    ensures w.Valid() && old(w.pos) <= w.pos
    ensures r.Pass? && ObjectChecked(fields, os) ==>
              && w.Written() == VarsWritten(Members(fields), ps, f, i + 1)
              && BoundariesFitTo(Members(fields), ps, Vars(Members(fields)[..i + 1]))
    ensures r.Fail? ==> VarsFail(r, fields, os, ps, start, w.buf.Length)
  {
    hide Typed, Wf, Good, Checks, SizeOf, Enc, Fits, VarsWritten, FrameOf, VarsFail, BoundariesFitTo, EndOf, Assemble, VarStart,
      VarChunks, Splice, Le, Pow256, ObjectTyped, ArePartsOf, ObjectChecked, PartFits, ChunkBytes;
    WellFormed(fields, os);
    ghost var ok := ObjectChecked(fields, os);
    var ms := Members(fields);
    var width, k := BoundaryWidth(ms), Vars(ms[..i]);
    SlotStep(ms, i);
    if ok {
      FrameIs(fields, os, ps, f);
      VarStep(ms, ps, f, i);
    }
    r := Pass;
    if k + 1 < Vars(ms) {
      TimesMonotone(k + 1, BoundaryCount(ms), width);
      r := w.End(bounds + Times(k, width), start, width);
      if r.Fail? {
        VarEndFails(r, fields, os, ps, k, start, w.buf.Length);
        return;
      }
    }
    if ok {
      NextBoundaryFits(ms, ps, i);
    }
  }

  lemma {:induction false} FrameIs(fields: seq<Field>, os: seq<Option<Value>>, ps: seq<Part>, f: Frame)
    requires ObjectTyped(fields, os) && ArePartsOf(fields, os, ps) && FrameOf(fields, os, ps, f) && ObjectChecked(fields, os)
    ensures PartsFit(Members(fields), ps)
    ensures |f.head| == f.start + Boundaries(Members(fields)) && VarStart(Members(fields), ps) == Head(Members(fields)) + |f.optionals|
  {
  }

  lemma {:induction false} SectionsOf(ms: seq<Member>, ps: seq<Part>)
    requires PartsFit(ms, ps)
    ensures SectionPieces(ms, ps, AtSection) == PlainPieces(ms, ps)
    ensures SectionPieces(ms, ps, OptionalSection) == OptionalPieces(ms, ps)
  {
  }

  /** What each section of an object adds to its size. */
  lemma {:induction false} SectionSizes(ms: seq<Member>, ps: seq<Part>)
    requires PartsFit(ms, ps)
    ensures |BitSection(ms, ps)| + |Flat(PlainPieces(ms, ps))| == Boundaries(ms)
    ensures VarStart(ms, ps) == Head(ms) + |Flat(OptionalPieces(ms, ps))| <= |Assemble(ms, ps)|
  {
    hide BitSection;
    PlainSectionSize(ms, ps);
    AssembledSize(ms, ps);
  }

  lemma {:induction false} VarsBegin(ms: seq<Member>, ps: seq<Part>, f: Frame)
    requires PartsFit(ms, ps)
    ensures VarsWritten(ms, ps, f, 0) == f.head + Zeros(Times(BoundaryCount(ms), BoundaryWidth(ms))) + f.optionals
  {
  }

  /** With every slot written, every boundary is filled in. */
  lemma {:induction false} VarsEnd(ms: seq<Member>, ps: seq<Part>, f: Frame)
    requires PartsFit(ms, ps)
    ensures VarsWritten(ms, ps, f, |ms|) ==
              f.head + BoundaryBytes(VarStart(ms, ps), BoundaryWidth(ms), VarChunks(ms, ps), BoundaryCount(ms))
                + (f.optionals + Flat(VarChunks(ms, ps)))
  {
    hide BoundaryWidth, BitSection, VarStart, Flat, VarChunks;
    var n, chunks := BoundaryCount(ms), VarChunks(ms, ps);
    assert ms[..|ms|] == ms && chunks[..Vars(ms)] == chunks;
    AllFilled(VarStart(ms, ps), BoundaryWidth(ms), chunks, n);
  }

  lemma {:induction false} AllFilled(start: nat, width: nat, chunks: seq<seq<byte>>, n: nat)
    requires n <= |chunks|
    ensures Filled(start, width, chunks, n, n) == BoundaryBytes(start, width, chunks, n)
  {
  }

  lemma {:induction false} SixParts<T>(a: seq<T>, b: seq<T>, c: seq<T>, d: seq<T>, e: seq<T>, f: seq<T>)
    ensures (a + b + c) + d + (e + f) == a + (b + c + d + e + f)
  {
  }

  lemma {:induction false} VarsComplete(ms: seq<Member>, ps: seq<Part>, f: Frame, base: seq<byte>)
    requires PartsFit(ms, ps)
    requires f.head == base + BitSection(ms, ps) + Flat(PlainPieces(ms, ps)) && f.optionals == Flat(OptionalPieces(ms, ps))
    ensures VarsWritten(ms, ps, f, |ms|) == base + Assemble(ms, ps)
  {
    VarsEnd(ms, ps, f);
    hide VarsWritten, BoundaryWidth, BitSection, VarStart, BoundaryBytes, Flat, VarChunks;
    var boundaries := BoundaryBytes(VarStart(ms, ps), BoundaryWidth(ms), VarChunks(ms, ps), BoundaryCount(ms));
    SixParts(base, BitSection(ms, ps), Flat(PlainPieces(ms, ps)), boundaries, f.optionals, Flat(VarChunks(ms, ps)));
  }

  /** Each field is in one of the three sections or is only bits, which nothing keeps from being written. */
  lemma {:induction false} AllWritten(fields: seq<Field>, os: seq<Option<Value>>)
    requires ObjectTyped(fields, os)
    requires SectionWritten(fields, os, AtSection, |fields|)
    requires SectionWritten(fields, os, OptionalSection, |fields|)
    requires SectionWritten(fields, os, VarSection, |fields|)
    ensures ObjectChecked(fields, os) && forall i :: 0 <= i < |fields| ==> FieldWritten(fields, os, i)
  {
    forall i | 0 <= i < |fields| ensures FieldWritten(fields, os, i) && FieldMeets(fields[i], os[i], false) {
      hide Fits, Typed, Checks, SizeOf, SectionWritten;
      SomeSection(fields, os, i);
    }
  }

  lemma {:induction false} SomeSection(fields: seq<Field>, os: seq<Option<Value>>, i: nat)
    requires ObjectTyped(fields, os) && i < |fields|
    requires SectionWritten(fields, os, AtSection, |fields|)
    requires SectionWritten(fields, os, OptionalSection, |fields|)
    requires SectionWritten(fields, os, VarSection, |fields|)
    ensures FieldWritten(fields, os, i)
  {
    hide SizeOf, Checks, Fits, Typed;
    assert FieldReady(fields[i], os[i]);
    if IsFlag(fields[i].ty) && os[i].Some? {
      FlagChecked(fields[i].ty, os[i].value);
    }
  }

  /** An object whose writing fails is reported for the reason of the field or boundary that did. */
  lemma {:induction false} ObjectFails(r: Outcome, fields: seq<Field>, os: seq<Option<Value>>, ps: seq<Part>, pos: nat, room: nat)
    requires ObjectTyped(fields, os) && ArePartsOf(fields, os, ps) && VarsFail(r, fields, os, ps, pos, room)
    ensures WriteReported(r, Struct(fields), Object(os), pos, room)
  {
    hide SizeOf, Wf, Good, BoundariesFit, Assemble, FieldFits, FieldMeets, FieldTyped;
    ObjectIs(fields, os);
  }

  lemma {:induction false} ObjectIs(fields: seq<Field>, os: seq<Option<Value>>)
    requires ObjectTyped(fields, os)
    ensures Wf(Struct(fields)) && Good(Struct(fields)) && Typed(Struct(fields), Object(os))
    ensures Checked(Struct(fields), Object(os)) <==> ObjectChecked(fields, os)
    ensures ObjectChecked(fields, os) ==>
              && Enc(Struct(fields), Object(os)) == Assemble(Members(fields), Parts(fields, os))
              && (Fits(Struct(fields), Object(os)) <==>
                    && BoundariesFit(Members(fields), Parts(fields, os))
                    && forall i :: 0 <= i < |fields| ==> FieldWritten(fields, os, i))
  {
    hide SizeOf, Assemble, BoundariesFit;
    if ObjectChecked(fields, os) {
      forall i | 0 <= i < |fields| ensures FieldFits(fields[i], os[i]) <==> FieldWritten(fields, os, i) {
        hide Fits, Enc, Checks, Typed;
        assert FieldMeets(fields[i], os[i], false);
      }
    }
  }

  lemma {:induction false} ObjectPasses(fields: seq<Field>, os: seq<Option<Value>>, pos: nat, room: nat)
    requires ObjectTyped(fields, os) && ObjectChecked(fields, os)
    requires BoundariesFit(Members(fields), Parts(fields, os))
    requires forall i :: 0 <= i < |fields| ==> FieldWritten(fields, os, i)
    requires pos + |Assemble(Members(fields), Parts(fields, os))| <= room
    ensures WriteReported(Pass, Struct(fields), Object(os), pos, room)
    ensures Encodable(Struct(fields), Object(os))
    ensures Enc(Struct(fields), Object(os)) == Assemble(Members(fields), Parts(fields, os))
  {
    hide SizeOf, Wf, Good, BoundariesFit, Assemble, FieldFits, FieldMeets, FieldTyped, Typed, Checks;
    ObjectIs(fields, os);
  }

  /** A section too long for the buffer is of an object too long for it. */
  lemma {:induction false} SectionFailed(r: Outcome, fields: seq<Field>, os: seq<Option<Value>>, ps: seq<Part>, pieces: seq<seq<byte>>, pos: nat, start: nat, room: nat)
    requires ObjectTyped(fields, os) && ArePartsOf(fields, os, ps)
    requires SectionFails(r, fields, os, pieces, pos, room)
    requires ObjectChecked(fields, os) ==> pos + |Flat(pieces)| <= start + |Assemble(Members(fields), ps)|
    ensures VarsFail(r, fields, os, ps, start, room)
  {
    hide Typed, Wf, Good, Checks, SizeOf, Enc, Fits, Assemble, BoundariesFit;
  }

  /** What the passes of the encoder work from, when every field passes its checks. */
  ghost function ObjectParts(fields: seq<Field>, os: seq<Option<Value>>): (ps: seq<Part>)
    requires ObjectTyped(fields, os)
    ensures ArePartsOf(fields, os, ps)
    ensures ObjectChecked(fields, os) ==> PartsFit(Members(fields), ps)
  {
    if ObjectChecked(fields, os) then Parts(fields, os) else []
  }

  ghost function ObjectPieces(fields: seq<Field>, os: seq<Option<Value>>, section: Section): (pieces: seq<seq<byte>>)
    requires ObjectTyped(fields, os)
    ensures ArePieces(fields, os, ObjectParts(fields, os), section, pieces)
  {
    if ObjectChecked(fields, os) then SectionPieces(Members(fields), Parts(fields, os), section) else seq(|fields|, _ => [])
  }

  /** The first pass's failure: no room for the bitmap. */
  lemma {:induction false} NoRoom(fields: seq<Field>, os: seq<Option<Value>>, ps: seq<Part>, size: nat, pos: nat, start: nat, room: nat)
    requires ObjectTyped(fields, os) && ArePartsOf(fields, os, ps) && pos + size > room
    requires ObjectChecked(fields, os) ==> pos + size <= start + |Assemble(Members(fields), ps)|
    ensures VarsFail(Fail(Buffer), fields, os, ps, start, room)
  {
    hide Typed, Wf, Good, Checks, SizeOf, Enc, Fits, Assemble, BoundariesFit;
  }

  /** The object's sizes at each step of writing it. */
  lemma {:induction false} ObjectSizes(fields: seq<Field>, os: seq<Option<Value>>)
    requires ObjectTyped(fields, os) && ObjectChecked(fields, os)
    ensures var ms, ps := Members(fields), ObjectParts(fields, os);
            && PartsFit(ms, ps) && ps == Parts(fields, os)
            && ObjectPieces(fields, os, AtSection) == PlainPieces(ms, ps)
            && ObjectPieces(fields, os, OptionalSection) == OptionalPieces(ms, ps)
            && |BitSection(ms, ps)| == Bitmap(ms)
            && |BitSection(ms, ps)| + |Flat(PlainPieces(ms, ps))| == Boundaries(ms)
            && Boundaries(ms) <= Head(ms) == Boundaries(ms) + Times(BoundaryCount(ms), BoundaryWidth(ms))
            && Head(ms) + |Flat(OptionalPieces(ms, ps))| == VarStart(ms, ps) <= |Assemble(ms, ps)|
  {
    hide Typed, Wf, Good, Checks, SizeOf, Enc, Fits, Assemble, BitSection;
    var ps := ObjectParts(fields, os);
    SectionsOf(Members(fields), ps);
    SectionSizes(Members(fields), ps);
  }

  /** Writes the bitmap and the fixed fields. */
  method WriteFixedPart(w: Writer, fields: seq<Field>, os: seq<Option<Value>>) returns (r: Outcome)
    requires w.Valid() && ObjectTyped(fields, os)
    modifies w, w.buf
    ensures w.Valid() && (r.Pass? ==> old(w.pos) <= w.pos)
    ensures r.Pass? ==> SectionWritten(fields, os, AtSection, |fields|)
    ensures r.Pass? && ObjectChecked(fields, os) ==>
              var ms, ps := Members(fields), ObjectParts(fields, os);
              w.Written() == old(w.Written()) + BitSection(ms, ps) + Flat(PlainPieces(ms, ps))
    ensures r.Fail? ==> VarsFail(r, fields, os, ObjectParts(fields, os), old(w.pos), w.buf.Length)
    decreases fields, 1
  {
    hide Typed, Wf, Good, Checks, SizeOf, Enc, Fits, Assemble, BitSection, VarsFail, ArePieces, ObjectParts, ObjectPieces,
      ArePartsOf, ObjectTyped, ObjectChecked, SectionWritten, VarStart, BoundaryWidth, SectionFails;
    ghost var base, ps, pieces := w.Written(), ObjectParts(fields, os), ObjectPieces(fields, os, AtSection);
    if ObjectChecked(fields, os) {
      ObjectSizes(fields, os);
    }
    WellFormed(fields, os);
    if Bitmap(Members(fields)) > 0 {
      var bits := PackBitmap(fields, os, ps);
      r := w.Put(bits);
      if r.Fail? {
        NoRoom(fields, os, ps, |bits|, |base|, |base|, w.buf.Length);
        return;
      }
    }
    assert ObjectChecked(fields, os) ==> w.Written() == base + BitSection(Members(fields), ps);
    ghost var at := w.pos;
    r := WriteSection(w, fields, os, AtSection, ps, pieces);
    if r.Fail? {
      SectionFailed(r, fields, os, ps, pieces, at, |base|, w.buf.Length);
    }
  }

  lemma {:induction false} WellFormed(fields: seq<Field>, os: seq<Option<Value>>)
    requires ObjectTyped(fields, os)
    ensures WfFields(fields) && |os| == |fields|
  {
  }

  /**
   Writes an object's fields: the bitmap, the fixed fields, room for the boundaries, the optionals
   present, then the var section, whose slots fill in the boundaries.
   */
  method WriteObject(w: Writer, fields: seq<Field>, os: seq<Option<Value>>) returns (r: Outcome)
    requires w.Valid() && ObjectTyped(fields, os)
    modifies w, w.buf
    ensures w.Valid()
    ensures Wf(Struct(fields)) && Good(Struct(fields)) && Typed(Struct(fields), Object(os))
    ensures WriteReported(r, Struct(fields), Object(os), old(w.pos), w.buf.Length)
    ensures r.Pass? ==> Encodable(Struct(fields), Object(os)) && w.Written() == old(w.Written()) + Enc(Struct(fields), Object(os))
    decreases fields, 2
  {
    hide Typed, Wf, Good, Checks, SizeOf, Enc, Fits, Assemble, BitSection, VarsFail, ArePieces, ObjectParts, ObjectPieces,
      ArePartsOf, ObjectTyped, ObjectChecked, SectionWritten, VarStart, BoundaryWidth, SectionFails, WriteReported,
      PlainPieces, OptionalPieces, Flat, Zeros, VarsWritten, Boundaries, BoundaryCount, FrameOf;
    ghost var ok, ps, room := ObjectChecked(fields, os), ObjectParts(fields, os), w.buf.Length;
    ghost var base, optionals := w.Written(), ObjectPieces(fields, os, OptionalSection);
    WellFormed(fields, os);
    ObjectTypes(fields, os);
    var ms := Members(fields);
    var start := w.pos;
    r := WriteFixedPart(w, fields, os);
    if r.Fail? {
      ObjectFails(r, fields, os, ps, start, room);
      return;
    }
    var bounds := w.pos;
    ghost var head := w.Written();
    if ok {
      ObjectSizes(fields, os);
    }
    var reserved := Times(BoundaryCount(ms), BoundaryWidth(ms));
    if BoundaryCount(ms) > 0 {
      r, bounds := w.ZerosAt(reserved);
      if r.Fail? {
        NoRoom(fields, os, ps, reserved, |head|, start, room);
        ObjectFails(r, fields, os, ps, start, room);
        return;
      }
    } else {
      assert head == head + Zeros(reserved);
    }
    assert w.Written() == head + Zeros(reserved);
    ghost var at := w.pos;
    r := WriteSection(w, fields, os, OptionalSection, ps, optionals);
    if r.Fail? {
      SectionFailed(r, fields, os, ps, optionals, at, start, room);
      ObjectFails(r, fields, os, ps, start, room);
      return;
    }
    ghost var f := Frame(start, head, Flat(optionals));
    if ok {
      VarsBegin(ms, ps, f);
    }
    FrameHolds(fields, os, ps, f);
    r := WriteVars(w, fields, os, start, bounds, ps, f);
    if r.Fail? {
      ObjectFails(r, fields, os, ps, start, room);
      return;
    }
    AllWritten(fields, os);
    VarsComplete(ms, ps, f, base);
    ObjectPasses(fields, os, start, room);
  }

  lemma {:induction false} FrameHolds(fields: seq<Field>, os: seq<Option<Value>>, ps: seq<Part>, f: Frame)
    requires ObjectTyped(fields, os) && ArePartsOf(fields, os, ps)
    requires ObjectChecked(fields, os) ==>
               && |f.head| == f.start + Boundaries(Members(fields))
               && VarStart(Members(fields), ps) == Head(Members(fields)) + |f.optionals|
    ensures FrameOf(fields, os, ps, f)
  {
  }

  lemma {:induction false} ObjectTypes(fields: seq<Field>, os: seq<Option<Value>>)
    requires ObjectTyped(fields, os)
    ensures Wf(Struct(fields)) && Good(Struct(fields)) && Typed(Struct(fields), Object(os))
  {
  }

  // ----- every type

  /** An array is what its items are. */
  lemma {:induction false} ArrayIs(item: Type, count: nat, vs: seq<Value>)
    requires Wf(Array(item, count)) && Good(Array(item, count)) && Typed(Array(item, count), Items(vs))
    ensures Wf(item) && AllTyped(item, vs)
    ensures Checked(Array(item, count), Items(vs)) <==> AllEncodable(item, vs)
    ensures AllEncodable(item, vs) ==>
              && Enc(Array(item, count), Items(vs)) == Flat(EncAll(item, vs))
              && (Fits(Array(item, count), Items(vs)) <==> AllFit(item, vs))
  {
    hide SizeOf;
  }

  lemma {:induction false} ArrayReported(r: Outcome, item: Type, count: nat, vs: seq<Value>, pos: nat, room: nat)
    requires Wf(Array(item, count)) && Good(Array(item, count)) && Typed(Array(item, count), Items(vs))
    requires AllReported(r, item, vs, pos, room)
    ensures WriteReported(r, Array(item, count), Items(vs), pos, room)
    ensures r.Pass? ==> AllEncodable(item, vs)
  {
    ArrayIs(item, count, vs);
    hide Checks, Fits, Enc, Good, Wf, Typed, SizeOf, EncAll, Flat, AllFit;
  }

  /** Putting a run of raw bytes whole ends as writing each would. */
  lemma {:induction false} RawReported(r: Outcome, ty: Type, vs: seq<Value>, pos: nat, room: nat)
    requires Wf(ty) && IsRawByte(ty) && AllTyped(ty, vs)
    requires r == if pos + |RawBytes(ty, vs)| <= room then Pass else Fail(Buffer)
    ensures AllReported(r, ty, vs, pos, room)
    ensures AllEncodable(ty, vs) && Flat(EncAll(ty, vs)) == RawBytes(ty, vs)
  {
    RawBytesEnc(ty, vs);
    hide Checks, Fits, Enc, Good, Typed, SizeOf, EncAll, Flat, AllFit, Encodable, RawBytes, IsRawByte;
  }

  method WriteArray(w: Writer, item: Type, count: nat, vs: seq<Value>) returns (r: Outcome)
    requires w.Valid() && Wf(Array(item, count)) && Good(Array(item, count)) && Typed(Array(item, count), Items(vs))
    modifies w, w.buf
    ensures w.Valid()
    ensures WriteReported(r, Array(item, count), Items(vs), old(w.pos), w.buf.Length)
    ensures r.Pass? ==> w.Written() == old(w.Written()) + Enc(Array(item, count), Items(vs))
    decreases item, 4
  {
    hide Checks, Fits, Enc, Good, Wf, Typed, WriteReported, AllReported, SizeOf, EncAll, Flat, AllFit, Encodable, RawBytes;
    ArrayIs(item, count, vs);
    ghost var base, room := w.pos, w.buf.Length;
    if IsRawByte(item) {
      r := w.Put(RawBytes(item, vs));
      RawReported(r, item, vs, base, room);
    } else {
      r := WriteAll(w, item, vs);
    }
    ArrayReported(r, item, count, vs, base, room);
  }

  /** A collection is what its items are, or only their number. */
  lemma {:induction false} ItemsAre(kind: CollectionKind, element: Type, lengths: Lengths, vs: seq<Value>)
    requires var ty := Collection(kind, element, lengths); Wf(ty) && Good(ty) && Typed(ty, Items(vs))
    requires lengths.Allows(|vs|)
    ensures Wf(element) && Good(element) && AllTyped(element, vs) && lengths.Wf()
    ensures var ty, s := Collection(kind, element, lengths), SequenceOf(SizeOf(element), lengths);
            && (Checked(ty, Items(vs)) <==> s.Counted? || AllEncodable(element, vs))
            && (s.Counted? ==> Enc(ty, Items(vs)) == Le(s.count, |vs|) && (Fits(ty, Items(vs)) <==> |vs| < Pow256(s.count)))
            && (AllEncodable(element, vs) ==>
                  && (s.Packed? ==> Enc(ty, Items(vs)) == Flat(EncAll(element, vs)) && (Fits(ty, Items(vs)) <==> AllFit(element, vs)))
                  && (s.Prefixed? ==>
                        && Enc(ty, Items(vs)) == Le(s.count, |vs|) + JoinItems(EncAll(element, vs), s.prefix)
                        && (Fits(ty, Items(vs)) <==>
                              |vs| < Pow256(s.count) && PrefixesFit(EncAll(element, vs), s.prefix) && AllFit(element, vs))))
  {
    hide SizeOf, Le, Pow256;
  }

  lemma {:induction false} ItemsReported(r: Outcome, kind: CollectionKind, element: Type, lengths: Lengths, vs: seq<Value>, pos: nat, room: nat)
    requires var ty := Collection(kind, element, lengths); Wf(ty) && Good(ty) && Typed(ty, Items(vs))
    requires lengths.Allows(|vs|) && Wf(element)
    requires match SequenceOf(SizeOf(element), lengths)
             case Packed(_) => AllReported(r, element, vs, pos, room)
             case Counted(count) =>
               r == if pos + count > room then Fail(Buffer) else if |vs| < Pow256(count) then Pass else Fail(TooLarge)
             case Prefixed(count, prefix) => PrefixedReported(r, element, vs, count, prefix, pos, room)
    ensures WriteReported(r, Collection(kind, element, lengths), Items(vs), pos, room)
    ensures r.Pass? && !SequenceOf(SizeOf(element), lengths).Counted? ==> AllEncodable(element, vs)
  {
    ItemsAre(kind, element, lengths, vs);
    hide Checks, Fits, Enc, Good, Wf, Typed, SizeOf, EncAll, Flat, AllFit, Encodable, Le, Pow256, JoinItems, PrefixesFit;
  }

  /** How a collection's items are written, once their number is allowed. */
  method WriteItems(w: Writer, kind: CollectionKind, element: Type, lengths: Lengths, vs: seq<Value>) returns (r: Outcome)
    requires var ty := Collection(kind, element, lengths); w.Valid() && Wf(ty) && Good(ty) && Typed(ty, Items(vs))
    requires lengths.Allows(|vs|)
    modifies w, w.buf
    ensures w.Valid()
    ensures WriteReported(r, Collection(kind, element, lengths), Items(vs), old(w.pos), w.buf.Length)
    ensures r.Pass? ==> w.Written() == old(w.Written()) + Enc(Collection(kind, element, lengths), Items(vs))
    decreases element, 4
  {
    hide Checks, Fits, Enc, Good, Wf, Typed, WriteReported, AllReported, PrefixedReported, SizeOf, EncAll, Flat, AllFit, Encodable,
      RawBytes, Le, Pow256, JoinItems, PrefixesFit;
    ItemsAre(kind, element, lengths, vs);
    ghost var base, room := w.pos, w.buf.Length;
    match SequenceOf(SizeOf(element), lengths) {
      case Packed(_) =>
        if kind.VecKind? && IsRawByte(element) {
          r := w.Put(RawBytes(element, vs));
          RawReported(r, element, vs, base, room);
        } else {
          r := WriteAll(w, element, vs);
        }
      case Counted(count) =>
        CountWidth(lengths);
        r := w.Len(count, |vs|);
      case Prefixed(count, prefix) =>
        CountWidth(lengths);
        PrefixWidth(element);
        r := WritePrefixed(w, element, vs, count, prefix);
    }
    ItemsReported(r, kind, element, lengths, vs, base, room);
  }

  method WriteEntry(w: Writer, key: Type, value: Type, k: Value, v: Value) returns (r: Outcome)
    requires w.Valid() && Wf(Pair(key, value)) && Good(Pair(key, value)) && Typed(Pair(key, value), Entry(k, v))
    modifies w, w.buf
    ensures w.Valid()
    ensures WriteReported(r, Pair(key, value), Entry(k, v), old(w.pos), w.buf.Length)
    ensures r.Pass? ==> w.Written() == old(w.Written()) + Enc(Pair(key, value), Entry(k, v))
    decreases Pair(key, value), 0
  {
    hide Typed, Wf, Good, Checks, SizeOf, Enc, Fits, WriteReported;
    ghost var start, room := w.pos, w.buf.Length;
    EntryIs(key, value, k, v);
    r := Write(w, key, k);
    if r.Fail? {
      EntryReported(r, r, key, value, k, v, start, room);
      return;
    }
    WritePassed(key, k, start, room);
    r := Write(w, value, v);
    EntryReported(Pass, r, key, value, k, v, start, room);
    if r.Pass? {
      WritePassed(value, v, start + |Enc(key, k)|, room);
    }
  }

  lemma {:induction false} EntryIs(key: Type, value: Type, k: Value, v: Value)
    requires Wf(Pair(key, value)) && Good(Pair(key, value)) && Typed(Pair(key, value), Entry(k, v))
    ensures Wf(key) && Good(key) && Typed(key, k) && Wf(value) && Good(value) && Typed(value, v)
    ensures Checked(Pair(key, value), Entry(k, v)) <==> Checked(key, k) && Checked(value, v)
    ensures Checked(key, k) && Checked(value, v) ==>
              && Enc(Pair(key, value), Entry(k, v)) == Enc(key, k) + Enc(value, v)
              && (Fits(Pair(key, value), Entry(k, v)) <==> Fits(key, k) && Fits(value, v))
  {
    hide SizeOf;
  }

  lemma {:induction false} EntryReported(first: Outcome, r: Outcome, key: Type, value: Type, k: Value, v: Value, pos: nat, room: nat)
    requires Wf(Pair(key, value)) && Good(Pair(key, value)) && Typed(Pair(key, value), Entry(k, v))
    requires Wf(key) && Good(key) && Typed(key, k) && Wf(value) && Good(value) && Typed(value, v)
    requires WriteReported(first, key, k, pos, room) && (first.Fail? ==> r == first)
    requires first.Pass? ==> Encodable(key, k) && WriteReported(r, value, v, pos + |Enc(key, k)|, room)
    ensures WriteReported(r, Pair(key, value), Entry(k, v), pos, room)
  {
    hide Typed, Wf, Good, Checks, SizeOf, Enc, Fits;
    EntryIs(key, value, k, v);
  }

  /** Writes the data of a variant, past its tag. */
  method WriteVariant(w: Writer, variant: Variant, data: Option<Value>) returns (r: Outcome)
    requires w.Valid() && VariantTyped(variant, data) && (variant.Data? ==> Wf(variant.ty) && Good(variant.ty))
    modifies w, w.buf
    ensures w.Valid()
    ensures Reported(r, VariantMeets(variant, data, false), VariantMeets(variant, data, false) && VariantFits(variant, data),
              VariantMeets(variant, data, false) && old(w.pos) + |VariantBytes(variant, data)| <= w.buf.Length)
    ensures r.Pass? ==> w.Written() == old(w.Written()) + VariantBytes(variant, data)
    decreases variant, 1
  {
    if data.Some? {
      r := Write(w, variant.ty, data.value);
    } else {
      r := Pass;
    }
  }

  method WriteUnion(w: Writer, variants: seq<Variant>, index: nat, data: Option<Value>) returns (r: Outcome)
    requires w.Valid() && Wf(Union(variants)) && Good(Union(variants)) && Typed(Union(variants), Choice(index, data))
    modifies w, w.buf
    ensures w.Valid()
    ensures WriteReported(r, Union(variants), Choice(index, data), old(w.pos), w.buf.Length)
    ensures r.Pass? ==> w.Written() == old(w.Written()) + Enc(Union(variants), Choice(index, data))
    decreases variants, 0
  {
    hide Typed, Wf, Good, Checks, SizeOf, Enc, Fits, VariantTyped, VariantMeets, VariantFits, VariantBytes, Le, TagWidth, Reported;
    ghost var start, room := w.pos, w.buf.Length;
    UnionIs(variants, index, data);
    r := w.Put(Le(TagWidth(|variants|), index + 1));
    if r.Fail? {
      NoRoomForTag(variants, index, data, start, room);
      return;
    }
    ghost var tagged := w.pos;
    r := WriteVariant(w, variants[index], data);
    UnionReported(r, variants, index, data, start, tagged, room);
  }

  lemma {:induction false} UnionIs(variants: seq<Variant>, index: nat, data: Option<Value>)
    requires Wf(Union(variants)) && Good(Union(variants)) && Typed(Union(variants), Choice(index, data))
    ensures index < |variants| && VariantTyped(variants[index], data)
    ensures variants[index].Data? ==> Wf(variants[index].ty) && Good(variants[index].ty)
    ensures Checked(Union(variants), Choice(index, data)) <==> VariantMeets(variants[index], data, false)
    ensures VariantMeets(variants[index], data, false) ==>
              && Enc(Union(variants), Choice(index, data)) == Le(TagWidth(|variants|), index + 1) + VariantBytes(variants[index], data)
              && (Fits(Union(variants), Choice(index, data)) <==> VariantFits(variants[index], data))
  {
    hide SizeOf, Le, TagWidth;
  }

  lemma {:induction false} NoRoomForTag(variants: seq<Variant>, index: nat, data: Option<Value>, pos: nat, room: nat)
    requires Wf(Union(variants)) && Good(Union(variants)) && Typed(Union(variants), Choice(index, data))
    requires pos + |Le(TagWidth(|variants|), index + 1)| > room
    ensures WriteReported(Fail(Buffer), Union(variants), Choice(index, data), pos, room)
  {
    hide Typed, Wf, Good, Checks, SizeOf, Enc, Fits, VariantTyped, VariantMeets, VariantFits, VariantBytes, Le, TagWidth;
    UnionIs(variants, index, data);
  }

  lemma {:induction false} UnionReported(r: Outcome, variants: seq<Variant>, index: nat, data: Option<Value>, pos: nat, tagged: nat, room: nat)
    requires Wf(Union(variants)) && Good(Union(variants)) && Typed(Union(variants), Choice(index, data)) && index < |variants|
    requires VariantTyped(variants[index], data) && (variants[index].Data? ==> Wf(variants[index].ty) && Good(variants[index].ty))
    requires tagged == pos + |Le(TagWidth(|variants|), index + 1)|
    requires var meets := VariantMeets(variants[index], data, false);
             Reported(r, meets, meets && VariantFits(variants[index], data), meets && tagged + |VariantBytes(variants[index], data)| <= room)
    ensures WriteReported(r, Union(variants), Choice(index, data), pos, room)
    ensures r.Pass? ==> VariantMeets(variants[index], data, false)
  {
    hide Typed, Wf, Good, Checks, SizeOf, Enc, Fits, VariantTyped, VariantMeets, VariantFits, VariantBytes, Le, TagWidth;
    UnionIs(variants, index, data);
  }

  method Write(w: Writer, ty: Type, v: Value) returns (r: Outcome)
    requires w.Valid() && Wf(ty) && Good(ty) && Typed(ty, v)
    modifies w, w.buf
    ensures w.Valid()
    ensures WriteReported(r, ty, v, old(w.pos), w.buf.Length)
    ensures r.Pass? ==> w.Written() == old(w.Written()) + Enc(ty, v)
    decreases ty, 1
  {
    match ty {
      case Atomic(s) => r := WriteScalar(w, s, v.atom);
      case Blob(text, lengths) =>
        if !(!text && lengths.FixedLength().Some?) && !lengths.Allows(|v.bytes|) {
          r := Fail(Length);
        } else {
          r := w.Put(v.bytes);
        }
      case Array(item, count) => r := WriteArray(w, item, count, v.items);
      case Collection(kind, element, lengths) =>
        if !lengths.Allows(|v.items|) {
          r := Fail(Length);
        } else {
          r := WriteItems(w, kind, element, lengths, v.items);
        }
      case Pair(key, value) => r := WriteEntry(w, key, value, v.key, v.value);
      case Newtype(target) => r := Write(w, target, v.inner);
      case Struct(fields) => r := WriteObject(w, fields, v.fields);
      case Union(variants) => r := WriteUnion(w, variants, v.index, v.data);
    }
  }
}
