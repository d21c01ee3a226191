/** Well-formed text: the bytes of a run of Unicode scalar values, and how far malformed text is. */
module Texts {
  import opened Bytes
  import opened Types

  /** A code point that is not half of a surrogate pair (section 3.9 of the Unicode Standard). */
  predicate IsScalar(c: nat) {
    c < 0xd800 || 0xe000 <= c < 0x11_0000
  }

  /** A scalar value in UTF-8: its bits, six to each byte after the first. */
  function CharBytes(c: nat): (b: seq<byte>)
    requires IsScalar(c)
    ensures b != []
  {
    if c < 0x80 then [c]
    else if c < 0x800 then [0xc0 + c / 0x40, 0x80 + c % 0x40]
    else if c < 0x1_0000 then [0xe0 + c / 0x1000, 0x80 + c / 0x40 % 0x40, 0x80 + c % 0x40]
    else [0xf0 + c / 0x4_0000, 0x80 + c / 0x1000 % 0x40, 0x80 + c / 0x40 % 0x40, 0x80 + c % 0x40]
  }

  predicate IsText(text: seq<nat>) {
    forall k :: 0 <= k < |text| ==> IsScalar(text[k])
  }

  function TextBytes(text: seq<nat>): seq<byte>
    requires IsText(text)
  {
    if text == [] then [] else CharBytes(text[0]) + TextBytes(text[1..])
  }

  /** A character is found at the start of its bytes, whatever follows. */
  lemma {:induction false} CharFound(c: nat, rest: seq<byte>)
    requires IsScalar(c)
    ensures CharLength(CharBytes(c) + rest) == |CharBytes(c)|
  {
  }

  lemma {:induction false} LastSix(high: nat, low: nat)
    requires low < 0x40
    ensures var c := high * 0x40 + low; c % 0x40 == low && c / 0x40 == high
    ensures var c := high * 0x40 + low; c / 0x1000 == high / 0x40 && c / 0x4_0000 == high / 0x1000
  {
  }

  /** What is found at the start of some bytes is a character. */
  lemma {:induction false} CharFrom(b: seq<byte>) returns (c: nat)
    requires CharLength(b) > 0
    ensures IsScalar(c) && CharBytes(c) == b[..CharLength(b)]
  {
    var n := CharLength(b);
    if n == 1 {
      c := b[0] as int;
    } else if n == 2 {
      c := TwoBytes(b);
    } else if n == 3 {
      c := ThreeBytes(b);
    } else {
      c := FourBytes(b);
    }
  }

  lemma {:induction false} TwoBytes(b: seq<byte>) returns (c: nat)
    requires CharLength(b) == 2
    ensures IsScalar(c) && CharBytes(c) == b[..2]
  {
    var x, y: nat := b[0] as int - 0xc0, b[1] as int - 0x80;
    c := x * 0x40 + y;
    LastSix(x, y);
  }

  lemma {:induction false} ThreeBytes(b: seq<byte>) returns (c: nat)
    requires CharLength(b) == 3
    ensures IsScalar(c) && CharBytes(c) == b[..3]
  {
    var x, y, z: nat := b[0] as int - 0xe0, b[1] as int - 0x80, b[2] as int - 0x80;
    var high := x * 0x40 + y;
    c := high * 0x40 + z;
    LastSix(x, y);
    LastSix(high, z);
    assert CharBytes(c) == [0xe0 + x, 0x80 + y, 0x80 + z];
  }

  lemma {:induction false} FourBytes(b: seq<byte>) returns (c: nat)
    requires CharLength(b) == 4
    ensures IsScalar(c) && CharBytes(c) == b[..4]
  {
    var w, x, y, z: nat := b[0] as int - 0xf0, b[1] as int - 0x80, b[2] as int - 0x80, b[3] as int - 0x80;
    var top := w * 0x40 + x;
    var high := top * 0x40 + y;
    c := high * 0x40 + z;
    LastSix(w, x);
    LastSix(top, y);
    LastSix(high, z);
    assert CharBytes(c) == [0xf0 + w, 0x80 + x, 0x80 + y, 0x80 + z];
  }

  lemma {:induction false} TextUtf8(text: seq<nat>)
    requires IsText(text)
    ensures Utf8(TextBytes(text))
  {
    hide CharLength, CharBytes;
    if text != [] {
      var first, rest := CharBytes(text[0]), TextBytes(text[1..]);
      CharFound(text[0], rest);
      TextUtf8(text[1..]);
      assert (first + rest)[|first|..] == rest;
    }
  }

  lemma {:induction false} Utf8Text(b: seq<byte>) returns (text: seq<nat>)
    requires Utf8(b)
    ensures IsText(text) && TextBytes(text) == b
    decreases |b|
  {
    hide CharLength, CharBytes;
    text := [];
    if b != [] {
      var c := CharFrom(b);
      var rest := Utf8Text(b[CharLength(b)..]);
      text := [c] + rest;
      assert text[1..] == rest && b == b[..CharLength(b)] + b[CharLength(b)..];
    }
  }

  /** Text is well formed exactly when it is the bytes of Unicode scalar values. */
  lemma {:induction false} Utf8Exactly(b: seq<byte>)
    ensures Utf8(b) <==> exists text :: IsText(text) && TextBytes(text) == b
  {
    hide Utf8;
    if Utf8(b) {
      var text := Utf8Text(b);
    }
    forall text | IsText(text) && TextBytes(text) == b ensures Utf8(b) {
      TextUtf8(text);
    }
  }

  /** The start that is well formed ends where validation reports: no longer start is. */
  lemma {:induction false} ValidUpToLongest(b: seq<byte>, n: nat)
    requires n <= |b|
    ensures Utf8(b[..ValidUpTo(b)]) && (Utf8(b[..n]) ==> n <= ValidUpTo(b))
    decreases |b|
  {
    hide CharLength;
    var size := CharLength(b);
    if b == [] || size == 0 {
      assert b[..0] == [];
      if n > 0 && Utf8(b[..n]) {
        SameChar(b, n);
      }
    } else {
      var end := ValidUpTo(b);
      ValidUpToLongest(b[size..], if n < size then 0 else n - size);
      SameStart(b, end);
      assert b[..end][size..] == b[size..][..end - size];
      if size <= n && Utf8(b[..n]) && n > 0 {
        SameChar(b, n);
        assert b[..n][size..] == b[size..][..n - size];
      }
    }
  }

  /** A character within the first `n` bytes is the one at the start of them all. */
  lemma {:induction false} SameChar(b: seq<byte>, n: nat)
    requires 0 < n <= |b| && CharLength(b[..n]) > 0
    ensures CharLength(b) == CharLength(b[..n])
  {
  }

  lemma {:induction false} SameStart(b: seq<byte>, n: nat)
    requires CharLength(b) > 0 && CharLength(b) <= n <= |b|
    ensures CharLength(b[..n]) == CharLength(b)
  {
  }
}
