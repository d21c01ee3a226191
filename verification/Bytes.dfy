/** Bytes, little-endian integers, bitmaps, and runs of pieces laid back to back. */
module Bytes {

  type byte = b: int | 0 <= b < 256

  // ----- little-endian integers

  function Pow256(n: nat): (p: nat)
    ensures p >= 1
  {
    if n == 0 then 1 else 256 * Pow256(n - 1)
  }

  /** The low `n` bytes of `value`, least significant first. */
  function Le(n: nat, value: nat): (b: seq<byte>)
    ensures |b| == n
  {
    if n == 0 then [] else [value % 256] + Le(n - 1, value / 256)
  }

  function LeVal(b: seq<byte>): nat {
    if b == [] then 0 else b[0] + 256 * LeVal(b[1..])
  }

  lemma {:induction false} LeReads(n: nat, value: nat)
    requires value < Pow256(n)
    ensures LeVal(Le(n, value)) == value
  {
    if n > 0 {
      LeReads(n - 1, value / 256);
      assert Le(n, value)[1..] == Le(n - 1, value / 256);
    }
  }

  lemma {:induction false} LeWrites(b: seq<byte>)
    ensures LeVal(b) < Pow256(|b|)
    ensures Le(|b|, LeVal(b)) == b
  {
    if b != [] {
      LeWrites(b[1..]);
      assert LeVal(b) / 256 == LeVal(b[1..]);
      assert LeVal(b) % 256 == b[0];
    }
  }

  lemma {:induction false} PowValues()
    ensures Pow256(1) == 0x100 && Pow256(2) == 0x1_0000
    ensures Pow256(4) == 0x1_0000_0000 && Pow256(8) == 0x1_0000_0000_0000_0000
  {
  }

  // ----- bits

  /** `byte >> k`. */
  function Shr(b: nat, k: nat): nat {
    if k == 0 then b else Shr(b / 2, k - 1)
  }

  /** `byte | 1 << k`. */
  function OrBit(b: nat, k: nat): nat {
    if k == 0 then b / 2 * 2 + 1 else b % 2 + 2 * OrBit(b / 2, k - 1)
  }

  function Pow2(n: nat): (p: nat)
    ensures p >= 1
  {
    if n == 0 then 1 else 2 * Pow2(n - 1)
  }

  lemma {:induction false} OrBitBound(b: nat, k: nat, m: nat)
    requires k < m && b < Pow2(m)
    ensures OrBit(b, k) < Pow2(m)
  {
    var half, rest := Pow2(m - 1), b / 2;
    assert b == 2 * rest + b % 2 && rest < half;
    if k > 0 {
      OrBitBound(rest, k - 1, m - 1);
      var inner := OrBit(rest, k - 1);
      assert OrBit(b, k) == b % 2 + 2 * inner;
    } else {
      assert OrBit(b, k) == 2 * rest + 1;
    }
  }

  lemma {:induction false} OrBitSets(b: nat, k: nat, j: nat)
    ensures Shr(OrBit(b, k), j) % 2 == 1 <==> j == k || Shr(b, j) % 2 == 1
  {
    if k > 0 && j > 0 {
      assert OrBit(b, k) / 2 == OrBit(b / 2, k - 1);
      OrBitSets(b / 2, k - 1, j - 1);
    } else if j > 0 {
      assert OrBit(b, k) / 2 == b / 2;
    }
  }

  lemma {:induction false} ShrBound(b: nat, k: nat, m: nat)
    requires b < Pow2(m)
    ensures k >= m ==> Shr(b, k) == 0
  {
    if k > 0 {
      if m == 0 {
        ShrBound(0, k - 1, 0);
      } else {
        ShrBound(b / 2, k - 1, m - 1);
      }
    }
  }

  /** A number is its bits. */
  lemma {:induction false} ByBits(a: nat, b: nat, m: nat)
    requires a < Pow2(m) && b < Pow2(m)
    requires forall j: nat :: j < m ==> Shr(a, j) % 2 == Shr(b, j) % 2
    ensures a == b
  {
    if m > 0 {
      assert Shr(a, 0) % 2 == Shr(b, 0) % 2;
      forall j: nat | j < m - 1
        ensures Shr(a / 2, j) % 2 == Shr(b / 2, j) % 2
      {
        assert Shr(a, j + 1) % 2 == Shr(b, j + 1) % 2;
      }
      ByBits(a / 2, b / 2, m - 1);
    }
  }

  /** The bits from `k` up are all clear when `b >> k` is zero. */
  lemma {:induction false} ShrZero(b: nat, k: nat, j: nat)
    requires Shr(b, k) == 0 && k <= j
    ensures Shr(b, j) == 0
  {
    if k > 0 {
      ShrZero(b / 2, k - 1, j - 1);
    } else {
      ShrBound(0, j, 0);
    }
  }

  /** `b >> k` is zero when the bits from `k` up are all clear. */
  lemma {:induction false} HighBitsClear(b: nat, k: nat, m: nat)
    requires k <= m && b < Pow2(m)
    requires forall j: nat :: k <= j < m ==> Shr(b, j) % 2 == 0
    ensures Shr(b, k) == 0
  {
    if k == 0 {
      forall j: nat | j < m
        ensures Shr(b, j) % 2 == Shr(0, j) % 2
      {
        ShrBound(0, j, 0);
      }
      ByBits(b, 0, m);
    } else {
      forall j: nat | k - 1 <= j < m - 1
        ensures Shr(b / 2, j) % 2 == 0
      {
        assert Shr(b, j + 1) % 2 == 0;
      }
      HighBitsClear(b / 2, k - 1, m - 1);
    }
  }

  lemma {:induction false} Pow2Eight()
    ensures Pow2(8) == 256
  {
  }

  /** Bit `n % 8` of byte `n / 8`. */
  predicate Bit(b: seq<byte>, n: nat)
    requires n / 8 < |b|
  {
    Shr(b[n / 8], n % 8) % 2 == 1
  }

  lemma {:induction false} BitsDetermine(a: seq<byte>, b: seq<byte>)
    requires |a| == |b|
    requires forall n: nat :: n < 8 * |a| ==> Bit(a, n) == Bit(b, n)
    ensures a == b
  {
    forall i | 0 <= i < |a|
      ensures a[i] == b[i]
    {
      forall j: nat | j < 8
        ensures Shr(a[i], j) % 2 == Shr(b[i], j) % 2
      {
        assert Bit(a, 8 * i + j) == Bit(b, 8 * i + j);
      }
      Pow2Eight();
      ByBits(a[i], b[i], 8);
    }
  }

  /** `bits[n / 8] |= 1 << (n % 8)`. */
  function SetBit(b: seq<byte>, n: nat): (r: seq<byte>)
    requires n / 8 < |b|
    ensures |r| == |b|
    ensures forall m: nat :: m < 8 * |b| ==> (Bit(r, m) <==> m == n || Bit(b, m))
  {
    Pow2Eight();
    OrBitBound(b[n / 8], n % 8, 8);
    var r := b[n / 8 := OrBit(b[n / 8], n % 8)];
    assert forall m: nat :: m < 8 * |b| ==> (Bit(r, m) <==> m == n || Bit(b, m)) by {
      forall m: nat | m < 8 * |b|
        ensures Bit(r, m) <==> m == n || Bit(b, m)
      {
        OrBitSets(b[n / 8], n % 8, m % 8);
      }
    }
    r
  }

  function PackByte(bits: seq<bool>): (b: nat)
    ensures b < Pow2(|bits|)
  {
    if bits == [] then 0 else (if bits[0] then 1 else 0) + 2 * PackByte(bits[1..])
  }

  lemma {:induction false} PackByteBit(bits: seq<bool>, k: nat)
    ensures Shr(PackByte(bits), k) % 2 == 1 <==> k < |bits| && bits[k]
  {
    if bits == [] {
      ShrBound(0, k, 0);
    } else if k > 0 {
      assert PackByte(bits) / 2 == PackByte(bits[1..]);
      PackByteBit(bits[1..], k - 1);
    }
  }

  /** `bits`, eight to a byte, in as few bytes as hold them. */
  function PackBits(bits: seq<bool>): (b: seq<byte>)
    ensures |b| == (|bits| + 7) / 8
  {
    Pow2Eight();
    if bits == [] then []
    else if |bits| <= 8 then
      Pow2Monotone(|bits|, 8);
      [PackByte(bits)]
    else [PackByte(bits[..8])] + PackBits(bits[8..])
  }

  lemma {:induction false} Pow2Monotone(m: nat, n: nat)
    requires m <= n
    ensures Pow2(m) <= Pow2(n)
  {
    if m < n {
      Pow2Monotone(m, n - 1);
    }
  }

  lemma {:induction false} PackBitsBit(bits: seq<bool>, n: nat)
    requires n < 8 * |PackBits(bits)|
    ensures Bit(PackBits(bits), n) <==> n < |bits| && bits[n]
  {
    if |bits| <= 8 {
      PackByteBit(bits, n);
    } else if n < 8 {
      PackByteBit(bits[..8], n);
    } else {
      PackBitsBit(bits[8..], n - 8);
      assert Bit(PackBits(bits), n) == Bit(PackBits(bits[8..]), n - 8);
    }
  }

  // ----- pieces laid back to back

  function Flat<T>(pieces: seq<seq<T>>): seq<T> {
    if pieces == [] then [] else Flat(pieces[..|pieces| - 1]) + pieces[|pieces| - 1]
  }

  lemma {:induction false} JoinTwice<T>(a: seq<T>, b: seq<T>, c: seq<T>)
    ensures a + b + c == a + (b + c)
  {
  }

  lemma {:induction false} FlatAdd<T>(pieces: seq<seq<T>>, last: seq<T>)
    ensures Flat(pieces + [last]) == Flat(pieces) + last
  {
    assert (pieces + [last])[..|pieces|] == pieces;
  }

  lemma {:induction false} SliceJoin<T>(s: seq<T>, i: nat, j: nat, k: nat)
    requires i <= j <= k <= |s|
    ensures s[i..j] + s[j..k] == s[i..k]
  {
  }

  lemma {:induction false} FlatPrefix<T>(pieces: seq<seq<T>>, i: nat)
    requires i <= |pieces|
    ensures Flat(pieces[..i]) <= Flat(pieces)
  {
    if i < |pieces| {
      var front := pieces[..|pieces| - 1];
      FlatPrefix(front, i);
      assert front[..i] == pieces[..i];
    } else {
      assert pieces[..i] == pieces;
    }
  }

  lemma {:induction false} FlatStep<T>(pieces: seq<seq<T>>, i: nat)
    requires i < |pieces|
    ensures Flat(pieces[..i + 1]) == Flat(pieces[..i]) + pieces[i]
  {
    assert pieces[..i + 1][..i] == pieces[..i];
  }

  /** Piece `i` is found where the pieces before it end. */
  lemma {:induction false} FlatPiece<T>(pieces: seq<seq<T>>, i: nat)
    requires i < |pieces|
    ensures |Flat(pieces[..i])| + |pieces[i]| == |Flat(pieces[..i + 1])| <= |Flat(pieces)|
    ensures Flat(pieces)[|Flat(pieces[..i])|..|Flat(pieces[..i + 1])|] == pieces[i]
  {
    FlatStep(pieces, i);
    FlatPrefix(pieces, i + 1);
  }

  /** Part of a section is found at the same distance into the whole. */
  lemma {:induction false} SectionSlice<T>(whole: seq<T>, from: nat, section: seq<T>, x: nat, y: nat)
    requires from + |section| <= |whole| && whole[from..from + |section|] == section
    requires x <= y <= |section|
    ensures whole[from + x..from + y] == section[x..y]
  {
    forall k | 0 <= k < y - x
      ensures whole[from + x..from + y][k] == section[x..y][k]
    {
      assert section[x + k] == whole[from..from + |section|][x + k];
    }
  }
}
