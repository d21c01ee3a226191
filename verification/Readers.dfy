/** The runtime's unchecked readers that keep state: walking optionals, prefixed items, and map entries. */
module Readers {
  import opened Wrappers
  import opened Bytes
  import opened Layouts
  import opened Objects
  import opened Sequences
  import opened Types
  import opened Codec

  /** `offset`: where the `k`-th optional value starts, by adding the sizes of those present. */
  method FindOffset(b: seq<byte>, head: nat, optionals: seq<(nat, nat)>, k: nat) returns (at: nat)
    requires k <= |optionals| && InBitmap(b, optionals)
    ensures at == Offset(b, head, optionals, k)
  {
    at := head;
    for j := 0 to k
      invariant at == Offset(b, head, optionals, j)
    {
      var (presence, size) := optionals[j];
      if Bit(b, presence) {
        at := at + size;
      }
    }
  }

  /** `slot`: the range of slot `k`, from the boundaries around it. */
  method FindSlot(b: seq<byte>, start: nat, bounds: nat, w: nat, slots: nat, k: nat) returns (begin: nat, end: nat)
    requires w in {1, 2} && 0 < slots && k < slots && bounds + Times(slots - 1, w) <= |b| && start <= |b|
    requires BoundariesOrdered(b, start, bounds, w, slots - 1)
    ensures k > 0 ==> bounds + Times(k - 1, w) + w <= |b|
    ensures k + 1 != slots ==> bounds + Times(k, w) + w <= |b|
    ensures begin == SlotBegin(b, start, bounds, w, k) && end == SlotEnd(b, bounds, w, slots, k)
    ensures begin <= end <= |b|
  {
    hide BoundAt, BoundariesOrdered;
    if k > 0 {
      OrderedAt(b, start, bounds, w, slots - 1, k - 1);
    }
    if k + 1 < slots {
      OrderedAt(b, start, bounds, w, slots - 1, k);
    }
    begin := if k == 0 then start else BoundAt(b, bounds + Times(k - 1, w), w);
    end := if k + 1 == slots then |b| else BoundAt(b, bounds + Times(k, w), w);
  }

  /** Hands out the bytes of one item after another, taking off a length before each but the last. */
  class RawItems {
    const prefix: nat
    var remaining: nat
    var bytes: seq<byte>

    /** What is left splits into items, so no read runs past the end. */
    ghost predicate Valid()
      reads this
    {
      prefix in {1, 2} && SplitItems(bytes, remaining, prefix).Some?
    }

    ghost function Left(): seq<seq<byte>>
      reads this
      requires Valid()
    {
      SplitItems(bytes, remaining, prefix).value
    }

    constructor (bytes: seq<byte>, len: nat, prefix: nat)
      requires prefix in {1, 2} && SplitItems(bytes, len, prefix).Some?
      ensures Valid() && Left() == SplitItems(bytes, len, prefix).value
    {
      this.prefix := prefix;
      this.remaining := len;
      this.bytes := bytes;
    }

    method Next() returns (item: Option<seq<byte>>)
      requires Valid()
      modifies this
      ensures Valid()
      ensures old(Left()) == [] ==> item.None? && Left() == []
      ensures old(Left()) != [] ==> item == Some(old(Left())[0]) && Left() == old(Left())[1..]
    {
      if remaining == 0 {
        return None;
      } else if remaining == 1 {
        item := Some(bytes);
        remaining, bytes := 0, [];
      } else {
        remaining := remaining - 1;
        var len := ReadLen(bytes, prefix);
        item := Some(bytes[prefix..][..len]);
        assert bytes[prefix..][..len] == bytes[prefix..prefix + len] && bytes[prefix..][len..] == bytes[prefix + len..];
        bytes := bytes[prefix..][len..];
      }
    }
  }

  /** What a validated collection of prefixed items holds: as many as its count, each valid, and nothing else. */
  lemma {:induction false} PrefixedParts(element: Type, lengths: Lengths, kind: CollectionKind, b: seq<byte>)
    requires var ty := Collection(kind, element, lengths); Wf(ty) && Good(ty) && Valid(ty, b)
    requires SizeOf(element).Var?
    ensures var s := SequenceOf(SizeOf(element), lengths);
            && s.Prefixed? && s.count in {1, 2} && s.prefix in {1, 2} && s.count <= |b|
            && SplitItems(b[s.count..], ReadLen(b, s.count), s.prefix).Some?
    ensures var s := SequenceOf(SizeOf(element), lengths);
            var items := SplitItems(b[s.count..], ReadLen(b, s.count), s.prefix).value;
            && |items| == ReadLen(b, s.count) && AllValid(element, items)
            && Read(Collection(kind, element, lengths), b) == Items(ReadAll(element, items))
  {
    hide SplitItems;
    CountWidth(lengths);
    PrefixWidth(element);
  }

  /** Reads the value of each item left. */
  method ReadItems(element: Type, items: RawItems, len: nat) returns (vs: seq<Value>)
    requires Wf(element) && Good(element) && items.Valid() && |items.Left()| == len && AllValid(element, items.Left())
    modifies items
    ensures vs == ReadAll(element, old(items.Left()))
  {
    hide SplitItems, Valid, Wf, Good, SizeOf, Read;
    ghost var all := items.Left();
    vs := [];
    for n := 0 to len
      invariant items.Valid() && items.Left() == all[n..]
      invariant |vs| == n && forall i :: 0 <= i < n ==> vs[i] == Read(element, all[i])
    {
      var item := items.Next();
      assert item == Some(all[n]) && Valid(element, all[n]);
      vs := vs + [Read(element, item.value)];
    }
  }

  /** A view of prefixed items walks the values that `Read` gives. */
  method ReadPrefixed(element: Type, lengths: Lengths, kind: CollectionKind, b: seq<byte>) returns (vs: seq<Value>)
    requires var ty := Collection(kind, element, lengths); Wf(ty) && Good(ty) && Valid(ty, b)
    requires SizeOf(element).Var?
    ensures Items(vs) == Read(Collection(kind, element, lengths), b)
  {
    PrefixedParts(element, lengths, kind, b);
    var s := SequenceOf(SizeOf(element), lengths);
    var len := ReadLen(b, s.count);
    hide SplitItems, Valid, SizeOf, Read;
    var items := new RawItems(b[s.count..], len, s.prefix);
    vs := ReadItems(element, items, len);
  }

  /** A prefixed map entry always holds its key, so splitting it there is in bounds. */
  lemma {:induction false} EntryHoldsKey(key: Type, value: Type, lengths: Lengths, b: seq<byte>, i: nat)
    requires var ty := Collection(MapKind, Pair(key, value), lengths); Wf(ty) && Good(ty) && Valid(ty, b)
    requires SizeOf(Pair(key, value)).Var?
    ensures LengthWidth(BoundOption(lengths.max)) <= |b| && LengthWidth(SizeOf(Pair(key, value)).max) in {1, 2}
    ensures var count, prefix := LengthWidth(BoundOption(lengths.max)), LengthWidth(SizeOf(Pair(key, value)).max);
            count in {1, 2} &&
            var items := SplitItems(b[count..], ReadLen(b, count), prefix);
            items.Some? && (i < |items.value| ==>
              && SizeOf(key).bytes <= |items.value[i]|
              && Valid(key, items.value[i][..SizeOf(key).bytes])
              && Valid(value, items.value[i][SizeOf(key).bytes..]))
  {
    hide SplitItems;
    CountWidth(lengths);
    PrefixWidth(Pair(key, value));
    var count, prefix := LengthWidth(BoundOption(lengths.max)), LengthWidth(SizeOf(Pair(key, value)).max);
    var items := SplitItems(b[count..], ReadLen(b, count), prefix).value;
    assert AllValid(Pair(key, value), items);
    if i < |items| {
      assert Valid(Pair(key, value), items[i]);
    }
  }
}
