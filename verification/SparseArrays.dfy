/** The paged sparse array: an index to a position, in pages allocated on first use and dropped when empty. */
module SparseArrays {
  import opened Wrappers

  const U32_MAX: nat := 0xffff_ffff

  /** A page of entries; an entry is 0 when empty, and one more than the position otherwise. */
  type Page = seq<nat>

  datatype Slot = Slot(page: Option<Page>, len: nat)

  function Filled(page: Page): nat {
    if page == [] then 0 else Filled(page[..|page| - 1]) + if page[|page| - 1] != 0 then 1 else 0
  }

  lemma {:induction false} FilledUpdate(page: Page, at: nat, entry: nat)
    requires at < |page|
    ensures Filled(page[at := entry]) == Filled(page) - (if page[at] != 0 then 1 else 0) + (if entry != 0 then 1 else 0)
    ensures page[at] != 0 ==> Filled(page) > 0
  {
    var n := |page| - 1;
    if at < n {
      FilledUpdate(page[..n], at, entry);
      assert page[at := entry][..n] == page[..n][at := entry];
    } else {
      assert page[at := entry][..n] == page[..n];
    }
  }

  lemma {:induction false} EmptyFilled(n: nat)
    ensures Filled(seq(n, _ => 0)) == 0
  {
    if n > 0 {
      EmptyFilled(n - 1);
      assert seq(n, _ => 0)[..n - 1] == seq(n - 1, _ => 0);
    }
  }

  lemma {:induction false} NoneFilled(page: Page, at: nat)
    requires Filled(page) == 0 && at < |page|
    ensures page[at] == 0
  {
    var n := |page| - 1;
    if at < n {
      NoneFilled(page[..n], at);
    }
  }

  /** `encode`: an entry for a position is one more than it, leaving 0 for none; a position the sum overflows has no entry. */
  function Encode(value: nat): (r: Option<nat>)
    ensures r.Some? <==> value < U32_MAX
    ensures r.Some? ==> 0 < r.value <= U32_MAX && Decode(r.value) == value
  {
    if value <= U32_MAX && (value + 1) % 0x1_0000_0000 != 0 then Some((value + 1) % 0x1_0000_0000) else None
  }

  function Decode(entry: nat): nat
    requires entry > 0
  {
    entry - 1
  }

  /** A slot's length counts its page's entries; a slot without any has no page. */
  predicate SlotOk(slot: Slot, n: nat) {
    match slot.page
    case None => slot.len == 0
    case Some(page) => |page| == n && slot.len == Filled(page) && slot.len > 0 && forall k :: 0 <= k < n ==> page[k] <= U32_MAX
  }

  /** A slot's page, allocated empty when there is none. */
  function PageOf(slot: Slot, n: nat): (page: Page)
    requires SlotOk(slot, n)
    ensures |page| == n
  {
    if slot.page.Some? then slot.page.value else seq(n, _ => 0)
  }

  predicate SlotsOk(data: seq<Slot>, n: nat) {
    n > 0 && forall p :: 0 <= p < |data| ==> SlotOk(data[p], n)
  }

  /** The last page is never empty. */
  predicate Trimmed(data: seq<Slot>) {
    data != [] ==> data[|data| - 1].page.Some?
  }

  /** Which page an index is in, and which of its entries it is. */
  function PageIn(index: nat, n: nat): nat
    requires n > 0
  {
    index / n
  }

  function EntryIn(index: nat, n: nat): (at: nat)
    requires n > 0
    ensures at < n
  {
    index % n
  }

  function At(data: seq<Slot>, n: nat, index: nat): Option<nat>
    requires SlotsOk(data, n)
  {
    if PageIn(index, n) >= |data| then None
    else
      assert SlotOk(data[PageIn(index, n)], n);
      var page := data[PageIn(index, n)].page;
      if page.None? || page.value[EntryIn(index, n)] == 0 then None else Some(Decode(page.value[EntryIn(index, n)]))
  }

  class SparseArray {
    /** How many entries a page holds. */
    const n: nat
    var data: seq<Slot>

    ghost predicate Valid()
      reads this
    {
      SlotsOk(data, n) && Trimmed(data)
    }

    ghost function Entry(index: nat): Option<nat>
      reads this
      requires Valid()
    {
      At(data, n, index)
    }

    constructor (n: nat)
      requires n > 0
      ensures Valid() && this.n == n && forall index: nat :: Entry(index).None?
    {
      this.n := n;
      this.data := [];
    }

    /** A position an entry holds fits one. */
    lemma {:induction false} EntrySmall(index: nat)
      requires Valid()
      ensures Entry(index).Some? ==> Entry(index).value < U32_MAX
    {
    }

    method Clear()
      requires Valid()
      modifies this
      ensures Valid() && forall index: nat :: Entry(index).None?
    {
      data := [];
    }

    method Get(index: nat) returns (value: Option<nat>)
      requires Valid()
      ensures value == Entry(index)
    {
      if PageIn(index, n) >= |data| {
        return None;
      }
      assert SlotOk(data[PageIn(index, n)], n);
      var page := data[PageIn(index, n)].page;
      if page.None? {
        return None;
      }
      var entry := page.value[EntryIn(index, n)];
      value := if entry == 0 then None else Some(Decode(entry));
    }

    /** Panics, so is not called, with a position too large for an entry. */
    method Insert(index: nat, value: nat)
      requires Valid() && value < U32_MAX
      modifies this
      ensures Valid() && forall i: nat :: Entry(i) == if i == index then Some(value) else old(Entry(i))
    {
      hide At, Filled, SlotsOk, SlotOk, Encode, Trimmed, PageIn, EntryIn;
      PagesHold(data, n);
      var p, at, entry := PageIn(index, n), EntryIn(index, n), Encode(value).value;
      ghost var before := data;
      if p >= |data| {
        data := data + seq(p + 1 - |data|, _ => Slot(None, 0));
      }
      ghost var grown := data;
      Grown(before, grown, n);
      PagesOk(grown, n, p);
      var page := PageOf(data[p], n);
      var len := if page[at] == 0 then data[p].len + 1 else data[p].len;
      data := data[p := Slot(Some(page[at := entry]), len)];
      Inserted(before, grown, data, n, index, entry);
    }

    method Remove(index: nat) returns (removed: Option<nat>)
      requires Valid()
      modifies this
      ensures Valid() && removed == old(Entry(index))
      ensures forall i: nat :: Entry(i) == if i == index then None else old(Entry(i))
    {
      var p, at := PageIn(index, n), EntryIn(index, n);
      if p >= |data| || data[p].page.None? {
        return None;
      }
      var slot := data[p];
      assert SlotOk(slot, n);
      var page := slot.page.value;
      if page[at] == 0 {
        return None;
      }
      removed := Some(Decode(page[at]));
      FilledUpdate(page, at, 0);
      ghost var before := data;
      if slot.len - 1 == 0 {
        data := data[p := Slot(None, 0)];
        Dropped(before, data, n, p, at, index, page);
        ghost var dropped := data;
        while data != [] && data[|data| - 1].page.None?
          invariant SlotsOk(data, n) && forall i: nat :: At(data, n, i) == At(dropped, n, i)
          decreases |data|
        {
          Popped(data, n);
          data := data[..|data| - 1];
        }
      } else {
        data := data[p := Slot(Some(page[at := 0]), slot.len - 1)];
        Stored(before, data, n, p, at, index, page, 0);
      }
    }
  }

  // ----- what each step keeps

  lemma {:induction false} PagesHold(data: seq<Slot>, n: nat)
    requires SlotsOk(data, n)
    ensures n > 0
  {
  }

  lemma {:induction false} Grown(before: seq<Slot>, after: seq<Slot>, n: nat)
    requires SlotsOk(before, n) && before <= after && forall p :: |before| <= p < |after| ==> after[p] == Slot(None, 0)
    ensures SlotsOk(after, n) && forall i: nat :: At(after, n, i) == At(before, n, i)
  {
  }

  lemma {:induction false} Popped(data: seq<Slot>, n: nat)
    requires SlotsOk(data, n) && data != [] && data[|data| - 1].page.None?
    ensures SlotsOk(data[..|data| - 1], n) && forall i: nat :: At(data[..|data| - 1], n, i) == At(data, n, i)
  {
  }

  lemma {:induction false} SameEntry(n: nat, i: nat, index: nat)
    requires n > 0
    ensures PageIn(i, n) == PageIn(index, n) && EntryIn(i, n) == EntryIn(index, n) <==> i == index
  {
  }

  /** An entry of another page, or of the same page when that is the same there, is what it was. */
  lemma {:induction false} OtherEntry(before: seq<Slot>, after: seq<Slot>, n: nat, i: nat)
    requires SlotsOk(before, n) && SlotsOk(after, n) && |after| == |before|
    ensures PageIn(i, n) < |before| && after[PageIn(i, n)] == before[PageIn(i, n)] ==> At(after, n, i) == At(before, n, i)
    ensures PageIn(i, n) >= |before| ==> At(after, n, i) == At(before, n, i)
  {
  }

  /** Storing an entry in a page changes that index only. */
  lemma {:induction false} Stored(before: seq<Slot>, after: seq<Slot>, n: nat, p: nat, at: nat, index: nat, page: Page, entry: nat)
    requires SlotsOk(before, n) && p < |before| && at < n && p == PageIn(index, n) && at == EntryIn(index, n)
    requires |page| == n && page == (if before[p].page.Some? then before[p].page.value else seq(n, _ => 0))
    requires entry <= U32_MAX && Filled(page[at := entry]) > 0
    requires after == before[p := Slot(Some(page[at := entry]), Filled(page[at := entry]))]
    ensures SlotsOk(after, n)
    ensures forall i: nat :: At(after, n, i) == if i == index then (if entry == 0 then None else Some(Decode(entry))) else At(before, n, i)
  {
    assert SlotOk(before[p], n);
    forall q | 0 <= q < |after| ensures SlotOk(after[q], n) {
      assert q != p ==> after[q] == before[q];
    }
    forall i: nat
      ensures At(after, n, i) == if i == index then (if entry == 0 then None else Some(Decode(entry))) else At(before, n, i)
    {
      hide Filled, PageIn, EntryIn;
      SameEntry(n, i, index);
      OtherEntry(before, after, n, i);
    }
  }

  lemma {:induction false} InsertStep(before: seq<Slot>, n: nat, index: nat, entry: nat)
    requires SlotsOk(before, n) && PageIn(index, n) < |before| && 0 < entry <= U32_MAX
    ensures n > 0 && EntryIn(index, n) < n && SlotOk(before[PageIn(index, n)], n)
    ensures var p, at := PageIn(index, n), EntryIn(index, n);
            var page := PageOf(before[p], n);
            var after := before[p := Slot(Some(page[at := entry]), if page[at] == 0 then before[p].len + 1 else before[p].len)];
            && SlotsOk(after, n)
            && (Trimmed(before) || p == |before| - 1 ==> Trimmed(after))
            && forall i: nat :: At(after, n, i) == if i == index then Some(Decode(entry)) else At(before, n, i)
  {
    hide At, Filled, PageIn, EntryIn;
    var p, at := PageIn(index, n), EntryIn(index, n);
    assert SlotOk(before[p], n);
    var page := PageOf(before[p], n);
    EmptyFilled(n);
    FilledUpdate(page, at, entry);
    var after := before[p := Slot(Some(page[at := entry]), Filled(page[at := entry]))];
    Stored(before, after, n, p, at, index, page, entry);
  }

  lemma {:induction false} PagesOk(data: seq<Slot>, n: nat, p: nat)
    requires SlotsOk(data, n) && p < |data|
    ensures SlotOk(data[p], n)
  {
  }

  /** The whole of an insertion: pages up to the one it is in, then the entry. */
  lemma {:induction false} Inserted(before: seq<Slot>, grown: seq<Slot>, after: seq<Slot>, n: nat, index: nat, entry: nat)
    requires SlotsOk(before, n) && SlotsOk(grown, n) && Trimmed(before) && 0 < entry <= U32_MAX
    requires grown == before || |grown| == PageIn(index, n) + 1
    requires PageIn(index, n) < |grown| && SlotOk(grown[PageIn(index, n)], n) && EntryIn(index, n) < n
    requires forall i: nat :: At(grown, n, i) == At(before, n, i)
    requires var p, at := PageIn(index, n), EntryIn(index, n);
             var page := PageOf(grown[p], n);
             after == grown[p := Slot(Some(page[at := entry]), if page[at] == 0 then grown[p].len + 1 else grown[p].len)]
    ensures SlotsOk(after, n) && Trimmed(after)
    ensures forall i: nat :: At(after, n, i) == if i == index then Some(Decode(entry)) else At(before, n, i)
  {
    hide At, PageIn, EntryIn;
    InsertStep(grown, n, index, entry);
    forall i: nat ensures At(after, n, i) == if i == index then Some(Decode(entry)) else At(before, n, i) {
      assert At(grown, n, i) == At(before, n, i);
    }
  }

  /** Dropping a page whose only entry goes. */
  lemma {:induction false} Dropped(before: seq<Slot>, after: seq<Slot>, n: nat, p: nat, at: nat, index: nat, page: Page)
    requires SlotsOk(before, n) && p < |before| && at < n && p == PageIn(index, n) && at == EntryIn(index, n)
    requires before[p].page == Some(page) && |page| == n && Filled(page[at := 0]) == 0 && after == before[p := Slot(None, 0)]
    ensures SlotsOk(after, n) && forall i: nat :: At(after, n, i) == if i == index then None else At(before, n, i)
  {
    assert SlotOk(before[p], n);
    forall q | 0 <= q < |after| ensures SlotOk(after[q], n) {
      assert q != p ==> after[q] == before[q];
    }
    forall i: nat ensures At(after, n, i) == if i == index then None else At(before, n, i) {
      hide Filled, PageIn, EntryIn;
      SameEntry(n, i, index);
      NoneFilled(page[at := 0], EntryIn(i, n));
    }
  }
}
