/** The encoder's writer: a position in a buffer, moved on by each write, with room left to be overwritten. */
module Writers {
  import opened Bytes

  datatype EncodeErrorKind = TooLarge | Buffer | Length | Range | Float

  datatype Outcome = Pass | Fail(error: EncodeErrorKind)

  function Zeros(n: nat): (b: seq<byte>)
    ensures |b| == n
  {
    seq(n, _ => 0)
  }

  /** `s` with `b` in place of the bytes at `at`. */
  function Splice(s: seq<byte>, at: nat, b: seq<byte>): (r: seq<byte>)
    requires at + |b| <= |s|
    ensures |r| == |s|
  {
    s[..at] + b + s[at + |b|..]
  }

  class Writer {
    const buf: array<byte>
    var pos: nat

    ghost predicate Valid()
      reads this
    {
      pos <= buf.Length
    }

    /** The part of the buffer before the position. */
    ghost function Written(): (b: seq<byte>)
      reads this, buf
      requires Valid()
      ensures |b| == pos
    {
      buf[..pos]
    }

    constructor (buf: array<byte>)
      ensures Valid() && this.buf == buf && Written() == []
    {
      this.buf := buf;
      this.pos := 0;
    }

    method Put(bytes: seq<byte>) returns (r: Outcome)
      requires Valid()
      modifies this, buf
      ensures Valid()
      ensures r == if old(pos) + |bytes| <= buf.Length then Pass else Fail(Buffer)
      ensures r.Pass? ==> Written() == old(Written()) + bytes
      ensures r.Fail? ==> Written() == old(Written())
    {
      var end := pos + |bytes|;
      if end <= buf.Length {
        forall i | 0 <= i < |bytes| {
          buf[pos + i] := bytes[i];
        }
        pos := end;
        return Pass;
      }
      return Fail(Buffer);
    }

    /** Leaves a gap of zeros for what is not known yet. */
    method ZerosAt(len: nat) returns (r: Outcome, start: nat)
      requires Valid()
      modifies this, buf
      ensures Valid() && start == old(pos)
      ensures r == if old(pos) + len <= buf.Length then Pass else Fail(Buffer)
      ensures r.Pass? ==> Written() == old(Written()) + Zeros(len)
      ensures r.Fail? ==> Written() == old(Written())
    {
      start := pos;
      var end := start + len;
      if end <= buf.Length {
        forall i | start <= i < end {
          buf[i] := 0;
        }
        pos := end;
        return Pass, start;
      }
      return Fail(Buffer), start;
    }

    /** Fills in a gap, unless the number is too large for it. */
    method Patch(at: nat, width: nat, value: nat) returns (r: Outcome)
      requires Valid() && width in {1, 2} && at + width <= pos
      modifies buf
      ensures Valid()
      ensures r == if value < Pow256(width) then Pass else Fail(TooLarge)
      ensures r.Pass? ==> Written() == Splice(old(Written()), at, Le(width, value))
      ensures r.Fail? ==> Written() == old(Written())
    {
      PowValues();
      if width == 1 {
        if value > 0xff {
          return Fail(TooLarge);
        }
        buf[at] := value;
        assert Le(1, value) == [value];
      } else {
        if value > 0xffff {
          return Fail(TooLarge);
        }
        buf[at], buf[at + 1] := value % 256, value / 256;
        assert Le(2, value) == [value % 256, value / 256];
      }
      return Pass;
    }

    /** A number at the position: a gap, filled in at once. */
    method Len(width: nat, len: nat) returns (r: Outcome)
      requires Valid() && width in {1, 2}
      modifies this, buf
      ensures Valid()
      ensures r == if old(pos) + width > buf.Length then Fail(Buffer)
                   else if len < Pow256(width) then Pass else Fail(TooLarge)
      ensures r.Pass? ==> Written() == old(Written()) + Le(width, len)
    {
      var at;
      r, at := ZerosAt(width);
      if r.Fail? {
        return;
      }
      r := Patch(at, width, len);
    }

    /** Fills in a boundary: how far past `start`, where the object begins, the writer has come. */
    method End(at: nat, start: nat, width: nat) returns (r: Outcome)
      requires Valid() && width in {1, 2} && at + width <= pos && start <= pos
      modifies buf
      ensures Valid()
      ensures r == if pos - start < Pow256(width) then Pass else Fail(TooLarge)
      ensures r.Pass? ==> Written() == Splice(old(Written()), at, Le(width, pos - start))
      ensures r.Fail? ==> Written() == old(Written())
    {
      r := Patch(at, width, pos - start);
    }
  }

  // ----- filling in what was left

  /** Filling in the length of what was appended after it. */
  lemma {:induction false} FillLength(start: seq<byte>, width: nat, item: seq<byte>)
    ensures Splice(start + Zeros(width) + item, |start|, Le(width, |item|)) == start + (Le(width, |item|) + item)
  {
  }

  lemma {:induction false} ZerosSplit(n: nat, m: nat)
    requires m <= n
    ensures Zeros(n) == Zeros(m) + Zeros(n - m)
  {
  }
}
