/** Whole messages: encoding into a buffer, validating what arrived, and what the two guarantee together. */
module Messages {
  import opened Wrappers
  import opened Bytes
  import opened Layouts
  import opened Types
  import opened Codec
  import opened RoundTrips
  import opened SizeBounds
  import Canonical
  import opened Writers
  import opened Encoders
  import opened Validators

  /** A struct, message, or union the compiler accepts. */
  predicate IsMessage(ty: Type) {
    Wf(ty) && Good(ty) && (ty.Struct? || ty.Union?)
  }

  /** `en::encode`: a message encoded at the front of `buf`, whose rest is left alone. */
  method Encode(ty: Type, v: Value, buf: array<byte>) returns (r: Outcome, size: nat)
    requires IsMessage(ty) && Typed(ty, v)
    modifies buf
    ensures r.Pass? <==> Checked(ty, v) && Fits(ty, v) && |Enc(ty, v)| <= Min(buf.Length, MAX_SIZE)
    ensures r.Pass? ==> size == |Enc(ty, v)| && buf[..size] == Enc(ty, v)
    ensures r.Fail? && Checked(ty, v) ==> r.error in {EncodeErrorKind.Buffer, EncodeErrorKind.TooLarge}
    ensures r == Fail(Buffer) && Checked(ty, v) ==> |Enc(ty, v)| > buf.Length
    ensures r == Fail(EncodeErrorKind.TooLarge) && Checked(ty, v) ==> !Fits(ty, v) || |Enc(ty, v)| > MAX_SIZE
  {
    hide Checks, Fits, Enc, Good, Wf, Typed;
    var w := new Writer(buf);
    r := Write(w, ty, v);
    size := w.pos;
    if r.Pass? {
      WritePassed(ty, v, 0, buf.Length);
      assert w.Written() == Enc(ty, v);
      if size > MAX_SIZE {
        r := Fail(EncodeErrorKind.TooLarge);
      }
    }
  }

  /**
   The round trip a schema promises. A value meeting its constraints, whose encoding is within the
   message size and which holds no more than 65535 items of no size anywhere, always encodes into
   a buffer with room for it.
   */
  lemma {:induction false} Encodes(ty: Type, v: Value)
    requires IsMessage(ty) && Typed(ty, v) && Meets(ty, v)
    ensures Checked(ty, v)
    ensures |Enc(ty, v)| <= MAX_SIZE && CountsSmall(ty, v) ==>
              Fits(ty, v) && Valid(ty, Enc(ty, v)) && Read(ty, Enc(ty, v)) == v
  {
    hide Checks, Fits, Enc, Good, Wf, Typed, Valid, Read, CountsSmall;
    MeetsChecked(ty, v);
    if |Enc(ty, v)| <= MAX_SIZE && CountsSmall(ty, v) {
      FitsWidths(ty, v);
      RoundTrip(ty, v);
    }
  }

  /**
   Sends `v` through `buf`: unless the encoder refuses it, the bytes it leaves are accepted and
   read back as `v`, exactly when `v` meets its constraints.
   */
  method Send(ty: Type, v: Value, buf: array<byte>) returns (r: Outcome, size: nat, verdict: Verdict)
    requires IsMessage(ty) && Typed(ty, v)
    modifies buf
    ensures Encodable(ty, v) && Meets(ty, v) && CountsSmall(ty, v) && |Enc(ty, v)| <= Min(buf.Length, MAX_SIZE) ==> r.Pass?
    ensures r.Pass? ==> size <= buf.Length
    ensures r.Pass? ==> (verdict.Accept? <==> Valid(ty, buf[..size]))
    ensures r.Pass? && Meets(ty, v) ==> verdict.Accept? && Read(ty, buf[..size]) == v
    ensures r.Pass? && !Meets(ty, v) && verdict.Accept? ==> Read(ty, buf[..size]) != v
  {
    hide Checks, Fits, Enc, Good, Wf, Typed, Valid, Read, CountsSmall;
    if Meets(ty, v) {
      Encodes(ty, v);
    }
    r, size := Encode(ty, v, buf);
    verdict := Accept;
    if r.Pass? {
      FitsWidths(ty, v);
      verdict := Validate(ty, buf[..size]);
      if verdict.Accept? {
        Canonical.Canonical(ty, buf[..size]);
      }
    }
  }

  // ----- what the encoder does not check

  /**
   What the encoder writes is read back as what was encoded exactly when the value meets its
   constraints; the encoder refuses any other value, but for what it leaves unchecked.
   */
  lemma {:induction false} RoundTripExactly(ty: Type, v: Value)
    requires Encodable(ty, v) && Fits(ty, v)
    ensures Valid(ty, Enc(ty, v)) && Read(ty, Enc(ty, v)) == v <==> Meets(ty, v)
  {
    hide Checks, Fits, Enc, Good, Wf, Typed, Valid, Read;
    if Meets(ty, v) {
      RoundTrip(ty, v);
    } else if Valid(ty, Enc(ty, v)) {
      Canonical.Canonical(ty, Enc(ty, v));
    }
  }

  /** A string both of whose length bounds are zero takes no byte. */
  function EmptyString(): Type {
    Blob(true, Lengths(Some(0), Some(0)))
  }

  /** A struct of one field, a `vec` of such strings. */
  function CountedOnly(): Type {
    Struct([Field(Collection(VecKind, EmptyString(), Lengths(None, None)), false)])
  }

  function NotEmpty(): Value {
    Object([Some(Items([Raw([0x61])]))])
  }

  /**
   The encoder only counts items of no size, without looking at them: it accepts a string that is
   not empty where only empty ones are allowed, and what is read back is not what was encoded.
   */
  lemma {:induction false} CountedItemsUnchecked()
    ensures var ty, v := CountedOnly(), NotEmpty();
            && IsMessage(ty) && Encodable(ty, v) && Fits(ty, v) && |Enc(ty, v)| <= MAX_SIZE
            && !(Valid(ty, Enc(ty, v)) && Read(ty, Enc(ty, v)) == v)
  {
    hide Typed, Wf, Good, Checks, Fits, Enc, Valid, Read, CountedOnly, NotEmpty;
    var ty, v := CountedOnly(), NotEmpty();
    CountedOnlyLaysOut();
    CountedOnlyTakes();
    NotEmptyFails();
    RoundTripExactly(ty, v);
  }

  lemma {:induction false} NotEmptyFails()
    ensures Wf(CountedOnly()) && Typed(CountedOnly(), NotEmpty()) ==> !Meets(CountedOnly(), NotEmpty())
  {
    var ty, v := CountedOnly(), NotEmpty();
    var field, items := ty.fields[0], v.fields[0].value;
    if Wf(ty) && Typed(ty, v) {
      assert FieldTyped(field, v.fields[0]) && Typed(EmptyString(), items.items[0]);
      assert !Checks(EmptyString(), items.items[0], true);
      assert !FieldMeets(field, v.fields[0], true);
    }
  }

  lemma {:induction false} CountedOnlyLaysOut()
    ensures IsMessage(CountedOnly()) && SizeOf(CountedOnly().fields[0].ty) == Var(Some(2))
    ensures Members(CountedOnly().fields) == [Member(false, false, Var(Some(2)))]
  {
    var ty := CountedOnly();
    var element := ty.fields[0].ty;
    assert SizeOf(EmptyString()) == Fixed(0);
    assert Wf(element) && Good(element);
    var ms := Members(ty.fields);
    assert ms == [Member(false, false, Var(Some(2)))];
    OneVar(ms);
  }

  lemma {:induction false} OneVar(ms: seq<Member>)
    requires ms == [Member(false, false, Var(Some(2)))]
    ensures Head(ms) == 0 && Vars(ms) == 1
  {
    assert ms[..0] == [] && ms[..1] == ms && AtBytes([]) == 0;
    PrefixStep(ms, 0);
    assert Bits(ms) == 0 && AtBytes(ms) == 0 && Vars(ms) == 1;
    assert Times(BoundaryCount(ms), BoundaryWidth(ms)) == 0;
  }

  lemma {:induction false} NotEmptyItems()
    ensures var ty, v := CountedOnly().fields[0].ty, NotEmpty().fields[0].value;
            Encodable(ty, v) && Fits(ty, v)
  {
    var ty, v := CountedOnly().fields[0].ty, NotEmpty().fields[0].value;
    CountedOnlyLaysOut();
    assert Utf8([0x61]) by {
      assert CharLength([0x61]) == 1;
      assert [0x61][1..] == [];
    }
    assert SizeOf(EmptyString()) == Fixed(0) && Typed(EmptyString(), v.items[0]);
    PowValues();
  }

  lemma {:induction false} CountedOnlyTakes()
    ensures var ty, v := CountedOnly(), NotEmpty();
            Encodable(ty, v) && Fits(ty, v) && |Enc(ty, v)| <= MAX_SIZE
  {
    var ty, v := CountedOnly(), NotEmpty();
    CountedOnlyLaysOut();
    NotEmptyItems();
    OneVar(Members(ty.fields));
    assert Encodable(ty, v) by {
      hide SizeOf, Enc, Fits;
      assert FieldTyped(ty.fields[0], v.fields[0]) && FieldMeets(ty.fields[0], v.fields[0], false);
    }
    assert Fits(ty, v) by {
      hide SizeOf, Enc;
      assert FieldFits(ty.fields[0], v.fields[0]);
    }
    CountedOnlySize();
    hide SizeOf, Enc, Fits, Typed, Checks, Wf, Good;
    EncodingMax(ty, v);
  }

  lemma {:induction false} CountedOnlySize()
    ensures SizeOf(CountedOnly()) == Var(Some(2))
  {
    CountedOnlyLaysOut();
    OneVarMax(Members(CountedOnly().fields));
  }

  lemma {:induction false} OneVarMax(ms: seq<Member>)
    requires ms == [Member(false, false, Var(Some(2)))]
    ensures ObjectSize(ms) == Var(Some(2))
  {
    OneVar(ms);
    PrefixStep(ms, 0);
    assert ms[..1] == ms;
    assert ms[..0] == [] && VarMax([]) == Some(0) && OptionalBytes([]) == 0;
    assert VarMax(ms) == Some(2) && OptionalBytes(ms) == 0;
    assert ms[0].IsVar() && Varies(ms);
  }
}
