/**
 What the bits of a float mean (sections 3.3 and 3.4 of IEEE 754), and that comparing floats by
 sign and magnitude compares their values.
 */
module Floats {
  import opened Wrappers
  import opened Bytes
  import opened Scalars

  // ----- the fields of the format

  /** One more than the largest fraction. */
  function FractionSpan(double: bool): nat {
    if double then 0x10_0000_0000_0000 else 0x80_0000
  }

  /** The biased exponent of infinities and NaNs, the largest. */
  function TopExponent(double: bool): nat {
    if double then 0x7ff else 0xff
  }

  function FractionOf(double: bool, bits: nat): nat {
    bits % FractionSpan(double)
  }

  function ExponentOf(double: bool, bits: nat): nat {
    bits / FractionSpan(double) % (TopExponent(double) + 1)
  }

  predicate IsNegative(double: bool, bits: nat) {
    bits / FractionSpan(double) / (TopExponent(double) + 1) == 1
  }

  predicate IsNan(double: bool, bits: nat) {
    ExponentOf(double, bits) == TopExponent(double) && FractionOf(double, bits) != 0
  }

  predicate IsInfinite(double: bool, bits: nat) {
    ExponentOf(double, bits) == TopExponent(double) && FractionOf(double, bits) == 0
  }

  /** A value without its sign, in units of the least float above zero; an infinity is past the largest. */
  function Unsigned(double: bool, exponent: nat, fraction: nat): nat {
    if exponent == 0 then fraction else (FractionSpan(double) + fraction) * Pow2(exponent - 1)
  }

  function ValueOf(double: bool, bits: nat): int {
    var size := Unsigned(double, ExponentOf(double, bits), FractionOf(double, bits));
    if IsNegative(double, bits) then -(size as int) else size
  }

  // ----- the magnitude holds exponent and fraction

  lemma {:induction false} MagnitudeFields(double: bool, bits: nat)
    requires bits < Pow256(FloatWidth(double))
    ensures ExponentOf(double, bits) == Magnitude(double, bits) / FractionSpan(double)
    ensures FractionOf(double, bits) == Magnitude(double, bits) % FractionSpan(double)
    ensures IsNegative(double, bits) <==> bits >= SignBit(double)
  {
    PowValues();
    var span, top := FractionSpan(double), TopExponent(double) + 1;
    assert span * top == SignBit(double);
    Regroup(bits, span, top, SignBit(double));
    if bits < SignBit(double) {
      QuotientIs(bits, SignBit(double), 0, bits);
    } else {
      QuotientIs(bits, SignBit(double), 1, bits - SignBit(double));
    }
  }

  /** Dividing in two steps, `c` being the product. */
  lemma {:induction false} Regroup(n: nat, a: nat, b: nat, c: nat)
    requires a > 0 && b > 0 && c > 0 && c == a * b
    ensures n / a / b == n / c && n / a % b == n % c / a && n % a == n % c % a
  {
    var q, r := n / a, n % a;
    var p, t := q / b, q % b;
    Recombine(n, a, b, c, q, r, p, t);
    QuotientIs(n, c, p, t * a + r);
    QuotientIs(t * a + r, a, t, r);
  }

  lemma {:induction false} Recombine(n: nat, a: nat, b: nat, c: nat, q: nat, r: nat, p: nat, t: nat)
    requires c == a * b && n == q * a + r && q == p * b + t && t < b && r < a
    ensures n == p * c + (t * a + r) && t * a + r < c
  {
    Distribute(p, a, b, t);
    Below(t, r, a, b);
  }

  lemma {:induction false} Distribute(p: nat, a: nat, b: nat, t: nat)
    ensures (p * b + t) * a == p * (a * b) + t * a
  {
  }

  lemma {:induction false} Below(t: nat, r: nat, a: nat, b: nat)
    requires t < b && r < a
    ensures t * a + r < a * b
  {
    SpanApart(t, b, a);
  }

  /** The magnitudes past that of infinity are the NaNs. */
  lemma {:induction false} KindsExactly(double: bool, bits: nat)
    requires bits < Pow256(FloatWidth(double))
    ensures Magnitude(double, bits) > Infinity(double) <==> IsNan(double, bits)
    ensures Magnitude(double, bits) == Infinity(double) <==> IsInfinite(double, bits)
  {
    MagnitudeFields(double, bits);
    var m, span, top := Magnitude(double, bits), FractionSpan(double), TopExponent(double);
    assert m < (top + 1) * span && Infinity(double) == top * span;
    hide Magnitude, FractionSpan, TopExponent, Infinity, FloatWidth, Pow256;
    AtTop(m, span, top, m / span, m % span);
  }

  lemma {:induction false} AtTop(m: nat, span: nat, top: nat, q: nat, r: nat)
    requires m == q * span + r && r < span && m < (top + 1) * span
    ensures m > top * span <==> q == top && r != 0
    ensures m == top * span <==> q == top && r == 0
  {
    if q < top {
      SpanApart(q, top, span);
    } else if top < q {
      SpanApart(top, q, span);
    }
  }

  function UnsignedOf(double: bool, magnitude: nat): nat {
    Unsigned(double, magnitude / FractionSpan(double), magnitude % FractionSpan(double))
  }

  /** The next magnitude is the next value. */
  lemma {:induction false} NextMagnitude(double: bool, n: nat)
    ensures UnsignedOf(double, n) < UnsignedOf(double, n + 1)
  {
    var span := FractionSpan(double);
    var e, f := n / span, n % span;
    NextFields(span, n);
    if f + 1 < span {
      if e > 0 {
        MoreTimes(span + f, Pow2(e - 1));
      }
    } else if e > 0 {
      MoreTimes(2 * span - 1, Pow2(e - 1));
      assert Pow2(e) == 2 * Pow2(e - 1);
      Twice(span, Pow2(e - 1));
    }
  }

  lemma {:induction false} NextFields(span: nat, n: nat)
    requires span > 0
    ensures n % span + 1 < span ==> (n + 1) / span == n / span && (n + 1) % span == n % span + 1
    ensures n % span + 1 == span ==> (n + 1) / span == n / span + 1 && (n + 1) % span == 0
  {
    var q, r := n / span, n % span;
    assert n == q * span + r;
    if r + 1 < span {
      QuotientIs(n + 1, span, q, r + 1);
    } else {
      assert n + 1 == (q + 1) * span;
      QuotientIs(n + 1, span, q + 1, 0);
    }
  }

  lemma {:induction false} QuotientIs(n: nat, span: nat, q: nat, r: nat)
    requires n == q * span + r && r < span
    ensures n / span == q && n % span == r
  {
    var d, m := n / span, n % span;
    assert d * span + m == q * span + r;
    if d < q {
      SpanApart(d, q, span);
    } else if q < d {
      SpanApart(q, d, span);
    }
  }

  lemma {:induction false} SpanApart(a: nat, b: nat, span: nat)
    requires a < b
    ensures a * span + span <= b * span
  {
    if a + 1 < b {
      SpanApart(a, b - 1, span);
    }
    assert b * span == (b - 1) * span + span;
  }

  lemma {:induction false} MoreTimes(a: nat, p: nat)
    requires p > 0
    ensures a * p < (a + 1) * p
  {
  }

  lemma {:induction false} Twice(span: nat, p: nat)
    ensures (2 * span) * p == span * (2 * p)
  {
  }

  lemma {:induction false} MagnitudeOrder(double: bool, m: nat, n: nat)
    requires m < n
    ensures UnsignedOf(double, m) < UnsignedOf(double, n)
  {
    hide UnsignedOf;
    NextMagnitude(double, n - 1);
    if m < n - 1 {
      MagnitudeOrder(double, m, n - 1);
    }
  }

  /** Floats that are not NaN compare by sign and magnitude as their values do. */
  lemma {:induction false} OrderExactly(double: bool, a: nat, b: nat)
    requires a < Pow256(FloatWidth(double)) && b < Pow256(FloatWidth(double))
    ensures Key(double, a) <= Key(double, b) <==> ValueOf(double, a) <= ValueOf(double, b)
  {
    MagnitudeFields(double, a);
    MagnitudeFields(double, b);
    hide FloatWidth, Magnitude, Unsigned, ExponentOf, FractionOf;
    var m, n := Magnitude(double, a), Magnitude(double, b);
    ZeroValue(double);
    SameOrder(double, m, n);
    SameOrder(double, n, m);
    SameOrder(double, 0, m);
    SameOrder(double, 0, n);
  }

  lemma {:induction false} ZeroValue(double: bool)
    ensures UnsignedOf(double, 0) == 0
  {
  }

  lemma {:induction false} SameOrder(double: bool, m: nat, n: nat)
    ensures m < n <==> UnsignedOf(double, m) < UnsignedOf(double, n)
  {
    hide UnsignedOf;
    if m < n {
      MagnitudeOrder(double, m, n);
    } else if n < m {
      MagnitudeOrder(double, n, m);
    }
  }

  /** `bits`, when there are any, are the float a bound of a type is. */
  predicate IsBound(double: bool, bound: Option<int>, bits: Option<nat>) {
    match bits
    case None => bound.None?
    case Some(b) => b < Pow256(FloatWidth(double)) && !IsNan(double, b) && bound == Some(Key(double, b))
  }

  /**
   The checks of a float, by value: a NaN or an infinity only where the type allows one, and
   otherwise within the bounds.
   */
  lemma {:induction false} FloatExactly(s: Scalar, bits: nat, least: Option<nat>, most: Option<nat>)
    requires s.Float? && bits < Pow256(FloatWidth(s.double))
    requires IsBound(s.double, s.least, least) && IsBound(s.double, s.most, most)
    ensures FloatOk(s, bits) <==>
            if IsNan(s.double, bits) then s.nan
            else
              && (IsInfinite(s.double, bits) ==> s.infinite)
              && (least.Some? ==> ValueOf(s.double, least.value) <= ValueOf(s.double, bits))
              && (most.Some? ==> ValueOf(s.double, bits) <= ValueOf(s.double, most.value))
  {
    KindsExactly(s.double, bits);
    if least.Some? {
      OrderExactly(s.double, least.value, bits);
    }
    if most.Some? {
      OrderExactly(s.double, bits, most.value);
    }
    hide IsNan, IsInfinite, ValueOf, FloatWidth;
  }
}
