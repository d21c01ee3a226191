/** The bodies of collections: items of one size back to back, and items behind their lengths. */
module Sequences {
  import opened Wrappers
  import opened Bytes
  import opened Layouts
  import opened Objects

  // ----- items of one size

  predicate AllOfSize(items: seq<seq<byte>>, size: nat) {
    forall i :: 0 <= i < |items| ==> |items[i]| == size
  }

  /** The `n` items of `size` bytes filling `b`. */
  function Chunks(b: seq<byte>, n: nat, size: nat): (items: seq<seq<byte>>)
    requires |b| == Times(n, size)
    ensures |items| == n && AllOfSize(items, size)
    decreases n
  {
    if n == 0 then []
    else
      Chunks(b[..Times(n - 1, size)], n - 1, size) + [b[Times(n - 1, size)..]]
  }

  lemma {:induction false} ChunksLast(b: seq<byte>, n: nat, size: nat)
    requires |b| == Times(n, size) && n > 0
    ensures Times(n - 1, size) <= |b|
    ensures Chunks(b, n, size) == Chunks(b[..Times(n - 1, size)], n - 1, size) + [b[Times(n - 1, size)..]]
  {
  }

  lemma {:induction false} ChunkAt(b: seq<byte>, n: nat, size: nat, i: nat)
    requires |b| == Times(n, size) && i < n
    ensures Times(i, size) + size <= |b|
    ensures Chunks(b, n, size)[i] == b[Times(i, size)..Times(i, size) + size]
    decreases n
  {
    var cut := Times(n - 1, size);
    ChunksLast(b, n, size);
    TimesMonotone(i + 1, n, size);
    if i < n - 1 {
      TimesMonotone(i + 1, n - 1, size);
      ChunkAt(b[..cut], n - 1, size, i);
      hide Chunks, AllOfSize;
      assert b[..cut][Times(i, size)..Times(i, size) + size] == b[Times(i, size)..Times(i, size) + size];
    }
  }

  lemma {:induction false} FlatSize(items: seq<seq<byte>>, size: nat)
    requires AllOfSize(items, size)
    ensures |Flat(items)| == Times(|items|, size)
  {
    if items != [] {
      FlatSize(items[..|items| - 1], size);
    }
  }

  lemma {:induction false} ChunksOfFlat(items: seq<seq<byte>>, size: nat)
    requires AllOfSize(items, size)
    ensures |Flat(items)| == Times(|items|, size) && Chunks(Flat(items), |items|, size) == items
  {
    FlatSize(items, size);
    if items != [] {
      var front := items[..|items| - 1];
      ChunksOfFlat(front, size);
      assert Flat(items)[..Times(|front|, size)] == Flat(front);
      assert items == front + [items[|items| - 1]];
    }
  }

  lemma {:induction false} FlatOfChunks(b: seq<byte>, n: nat, size: nat)
    requires |b| == Times(n, size)
    ensures Flat(Chunks(b, n, size)) == b
    decreases n
  {
    if n > 0 {
      var cut := Times(n - 1, size);
      ChunksLast(b, n, size);
      FlatOfChunks(b[..cut], n - 1, size);
      hide Flat, Chunks, Times, AllOfSize;
      FlatAdd(Chunks(b[..cut], n - 1, size), b[cut..]);
      SliceJoin(b, 0, cut, |b|);
    }
  }

  /** `de::packed`: how many items of `size` bytes fill `length` bytes, if any number does. */
  lemma {:induction false} PackedCount(length: nat, size: nat)
    requires size > 0 && length % size == 0
    ensures Times(length / size, size) == length
  {
    TimesIsProduct(length / size, size);
  }

  lemma {:induction false} CountOfTimes(n: nat, size: nat)
    requires size > 0
    ensures Times(n, size) % size == 0 && Times(n, size) / size == n
  {
    if n > 0 {
      CountOfTimes(n - 1, size);
      OneMore(Times(n - 1, size), size);
    }
  }

  lemma {:induction false} OneMore(x: nat, size: nat)
    requires size > 0
    ensures (x + size) % size == x % size && (x + size) / size == x / size + 1
  {
    var q, r := x / size, x % size;
    assert x + size == (q + 1) * size + r;
    QuotientUnique(x + size, size, q + 1, r);
  }

  lemma {:induction false} QuotientUnique(x: nat, size: nat, q: nat, r: nat)
    requires size > 0 && x == q * size + r && r < size
    ensures x / size == q && x % size == r
  {
    DivMod(x, size);
    var q', r' := x / size, x % size;
    assert (q' - q) * size == q' * size - q * size;
    SmallMultiple(q' - q, size);
  }

  lemma {:induction false} DivMod(x: nat, size: nat)
    requires size > 0
    ensures x == x / size * size + x % size && x % size < size
  {
  }

  lemma {:induction false} SmallMultiple(a: int, size: nat)
    requires -(size as int) < a * size < size
    ensures a == 0
  {
  }

  // ----- items behind their lengths, the last running to the end

  function JoinItems(items: seq<seq<byte>>, w: nat): seq<byte> {
    if items == [] then []
    else if |items| == 1 then items[0]
    else Le(w, |items[0]|) + items[0] + JoinItems(items[1..], w)
  }

  /** The `n` items filling `b`, as the validator and the iterators walk them. */
  function SplitItems(b: seq<byte>, n: nat, w: nat): (items: Option<seq<seq<byte>>>)
    requires w in {1, 2}
    ensures items.Some? ==> |items.value| == n
    decreases n
  {
    if n == 0 then if b == [] then Some([]) else None
    else if n == 1 then Some([b])
    else if |b| < w then None
    else
      var size := ReadLen(b, w);
      if |b| - w < size then None
      else
        var rest := SplitItems(b[w + size..], n - 1, w);
        if rest.None? then None else Some([b[w..w + size]] + rest.value)
  }

  /** Every item but the last has a length its prefix holds. */
  predicate PrefixesFit(items: seq<seq<byte>>, w: nat) {
    forall i :: 0 <= i < |items| - 1 ==> |items[i]| < Pow256(w)
  }

  /** An item behind its length is found by it. */
  lemma {:induction false} FirstItem(item: seq<byte>, rest: seq<byte>, w: nat)
    requires w in {1, 2} && |item| < Pow256(w)
    ensures var b := Le(w, |item|) + item + rest;
            && |b| == w + |item| + |rest| && ReadLen(b, w) == |item|
            && b[w..w + |item|] == item && b[w + |item|..] == rest
  {
  }

  lemma {:induction false} SplitJoined(items: seq<seq<byte>>, w: nat)
    requires w in {1, 2} && PrefixesFit(items, w)
    ensures SplitItems(JoinItems(items, w), |items|, w) == Some(items)
  {
    hide Le, ReadLen, Pow256;
    if |items| > 1 {
      SplitJoined(items[1..], w);
      FirstItem(items[0], JoinItems(items[1..], w), w);
      assert items == [items[0]] + items[1..];
    } else if |items| == 1 {
      assert items == [items[0]];
    }
  }

  lemma {:induction false} JoinSplit(b: seq<byte>, n: nat, w: nat)
    requires w in {1, 2} && SplitItems(b, n, w).Some?
    ensures PrefixesFit(SplitItems(b, n, w).value, w)
    ensures JoinItems(SplitItems(b, n, w).value, w) == b
    decreases n
  {
    hide ReadLen, Le, Pow256;
    if n > 1 {
      ReadLenIsLe(b, w);
      var size := ReadLen(b, w);
      JoinSplit(b[w + size..], n - 1, w);
      JoinFirst(b, w, size, SplitItems(b[w + size..], n - 1, w).value);
    }
  }

  lemma {:induction false} FirstPrefixFits(item: seq<byte>, rest: seq<seq<byte>>, w: nat)
    requires |item| < Pow256(w) && PrefixesFit(rest, w)
    ensures PrefixesFit([item] + rest, w)
  {
  }

  lemma {:induction false} JoinFirst(b: seq<byte>, w: nat, size: nat, rest: seq<seq<byte>>)
    requires w + size <= |b| && Le(w, size) == b[..w] && size < Pow256(w)
    requires rest != [] && PrefixesFit(rest, w) && JoinItems(rest, w) == b[w + size..]
    ensures PrefixesFit([b[w..w + size]] + rest, w) && JoinItems([b[w..w + size]] + rest, w) == b
  {
    var item := b[w..w + size];
    var items := [item] + rest;
    assert items[1..] == rest && |item| == size;
    FirstPrefixFits(item, rest, w);
    hide Le, Pow256, PrefixesFit;
    assert JoinItems(items, w) == Le(w, size) + item + JoinItems(rest, w);
    hide JoinItems;
    SliceJoin(b, 0, w, w + size);
    SliceJoin(b, 0, w + size, |b|);
  }

  function SumOf(items: seq<seq<byte>>): nat {
    if items == [] then 0 else |items[0]| + SumOf(items[1..])
  }

  lemma {:induction false} JoinedSize(items: seq<seq<byte>>, w: nat)
    ensures |JoinItems(items, w)| == SumOf(items) + Times(if items == [] then 0 else |items| - 1, w)
  {
    if |items| > 1 {
      JoinedSize(items[1..], w);
    } else if |items| == 1 {
      assert items[1..] == [];
    }
  }

  /** No item is longer than the whole. */
  lemma {:induction false} ItemWithin(items: seq<seq<byte>>, w: nat, i: nat)
    requires i < |items|
    ensures |items[i]| <= |JoinItems(items, w)|
  {
    if i > 0 {
      ItemWithin(items[1..], w, i - 1);
    }
  }

  // ----- appending items one at a time

  /** Each item behind its length. */
  function PrefixedRun(items: seq<seq<byte>>, w: nat): seq<byte> {
    if items == [] then []
    else
      var n := |items| - 1;
      PrefixedRun(items[..n], w) + (Le(w, |items[n]|) + items[n])
  }

  lemma {:induction false} NoItems(w: nat)
    ensures PrefixedRun([], w) == [] && JoinItems([], w) == []
  {
  }

  lemma {:induction false} RunLast(items: seq<seq<byte>>, w: nat)
    requires items != []
    ensures var n := |items| - 1; PrefixedRun(items, w) == PrefixedRun(items[..n], w) + (Le(w, |items[n]|) + items[n])
  {
  }

  lemma {:induction false} RunFirst(items: seq<seq<byte>>, w: nat)
    requires items != []
    ensures PrefixedRun(items, w) == Le(w, |items[0]|) + items[0] + PrefixedRun(items[1..], w)
  {
    if |items| > 1 {
      var n := |items| - 1;
      RunFirst(items[..n], w);
      RunLast(items, w);
      RunLast(items[1..], w);
      assert items[..n][1..] == items[1..][..n - 1];
      hide Le, PrefixedRun;
      JoinTwice(Le(w, |items[0]|) + items[0], PrefixedRun(items[1..][..n - 1], w), Le(w, |items[n]|) + items[n]);
    } else {
      assert items[1..] == [] && items[..0] == [];
    }
  }

  /** All items but the last are prefixed. */
  lemma {:induction false} JoinIsRun(items: seq<seq<byte>>, w: nat)
    requires items != []
    ensures JoinItems(items, w) == PrefixedRun(items[..|items| - 1], w) + items[|items| - 1]
  {
    hide Le;
    var n := |items| - 1;
    if n > 0 {
      JoinIsRun(items[1..], w);
      RunFirst(items[..n], w);
      assert items[..n][1..] == items[1..][..n - 1];
    } else {
      assert items[..0] == [];
    }
  }

  lemma {:induction false} RunStep(items: seq<seq<byte>>, w: nat, n: nat)
    requires n < |items|
    ensures PrefixedRun(items[..n + 1], w) == PrefixedRun(items[..n], w) + (Le(w, |items[n]|) + items[n])
  {
    assert items[..n + 1][..n] == items[..n];
  }

  lemma {:induction false} RunMonotone(items: seq<seq<byte>>, w: nat, n: nat)
    requires n <= |items|
    ensures |PrefixedRun(items[..n], w)| <= |PrefixedRun(items, w)|
    decreases |items| - n
  {
    if n < |items| {
      RunMonotone(items, w, n + 1);
      RunStep(items, w, n);
    } else {
      assert items[..n] == items;
    }
  }

  /** The items before `n`, and `n` with its prefix if it has one, take no more than the whole. */
  lemma {:induction false} RunWithin(items: seq<seq<byte>>, w: nat, n: nat)
    requires n < |items|
    ensures |PrefixedRun(items[..n], w)| + (if n + 1 < |items| then w else 0) + |items[n]| <= |JoinItems(items, w)|
  {
    hide Le;
    JoinIsRun(items, w);
    var front := items[..|items| - 1];
    if n + 1 < |items| {
      assert front[..n] == items[..n] && front[..n + 1] == items[..n + 1];
      RunStep(items, w, n);
      RunMonotone(front, w, n + 1);
    }
  }
}
