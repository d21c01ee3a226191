/** A set of indices as pages of 64-bit words, allocated on first use and dropped when empty. */
module SparseBitsets {
  import opened Wrappers
  import opened Bytes

  const PAGE_LEN: nat := 512
  const WORD_BITS: nat := 64
  const PAGE_BITS: nat := 32768

  /** A page of words. */
  type Page = seq<nat>

  datatype Slot = Slot(page: Option<Page>, len: nat)

  // ----- words

  /** `word & 1 << k != 0`. */
  predicate InWord(word: nat, k: nat) {
    Shr(word, k) % 2 == 1
  }

  /** `word & !(1 << k)`. */
  function ClearBit(word: nat, k: nat): nat {
    if k == 0 then word / 2 * 2 else word % 2 + 2 * ClearBit(word / 2, k - 1)
  }

  function Ones(word: nat): nat {
    if word == 0 then 0 else word % 2 + Ones(word / 2)
  }

  lemma {:induction false} ClearBitClears(word: nat, k: nat, j: nat)
    ensures InWord(ClearBit(word, k), j) <==> j != k && InWord(word, j)
  {
    if k > 0 && j > 0 {
      assert ClearBit(word, k) / 2 == ClearBit(word / 2, k - 1);
      ClearBitClears(word / 2, k - 1, j - 1);
    } else if j > 0 {
      assert ClearBit(word, k) / 2 == word / 2;
    }
  }

  lemma {:induction false} OnesStep(word: nat)
    ensures Ones(word) == word % 2 + Ones(word / 2)
  {
  }

  lemma {:induction false} OnesOr(word: nat, k: nat)
    ensures Ones(OrBit(word, k)) == Ones(word) + if InWord(word, k) then 0 else 1
  {
    OnesStep(word);
    OnesStep(OrBit(word, k));
    if k > 0 {
      OnesOr(word / 2, k - 1);
      assert OrBit(word, k) / 2 == OrBit(word / 2, k - 1);
    } else {
      assert OrBit(word, k) / 2 == word / 2;
    }
  }

  lemma {:induction false} OnesClear(word: nat, k: nat)
    ensures Ones(ClearBit(word, k)) == Ones(word) - if InWord(word, k) then 1 else 0
  {
    OnesStep(word);
    OnesStep(ClearBit(word, k));
    if k > 0 {
      OnesClear(word / 2, k - 1);
      assert ClearBit(word, k) / 2 == ClearBit(word / 2, k - 1);
    } else {
      assert ClearBit(word, k) / 2 == word / 2;
    }
  }

  lemma {:induction false} ZeroWord(k: nat)
    ensures !InWord(0, k)
  {
    if k > 0 {
      ZeroWord(k - 1);
    }
  }

  lemma {:induction false} NoOnes(word: nat)
    requires Ones(word) == 0
    ensures word == 0
  {
    if word > 0 {
      NoOnes(word / 2);
    }
  }

  // ----- pages

  function Total(page: Page): nat {
    if page == [] then 0 else Total(page[..|page| - 1]) + Ones(page[|page| - 1])
  }

  lemma {:induction false} TotalUpdate(page: Page, w: nat, word: nat)
    requires w < |page|
    ensures Total(page[w := word]) == Total(page) - Ones(page[w]) + Ones(word)
  {
    var n := |page| - 1;
    if w < n {
      TotalUpdate(page[..n], w, word);
      assert page[w := word][..n] == page[..n][w := word];
    } else {
      assert page[w := word][..n] == page[..n];
    }
  }

  lemma {:induction false} NewPage(n: nat)
    ensures Total(seq(n, _ => 0)) == 0
  {
    if n > 0 {
      NewPage(n - 1);
      assert seq(n, _ => 0)[..n - 1] == seq(n - 1, _ => 0);
    }
  }

  lemma {:induction false} EmptyPage(page: Page, w: nat)
    requires Total(page) == 0 && w < |page|
    ensures page[w] == 0
  {
    var n := |page| - 1;
    if w < n {
      EmptyPage(page[..n], w);
    } else {
      NoOnes(page[n]);
    }
  }

  predicate SlotOk(slot: Slot) {
    match slot.page
    case None => slot.len == 0
    case Some(page) => |page| == PAGE_LEN && slot.len == Total(page) && slot.len > 0
  }

  predicate SlotsOk(data: seq<Slot>) {
    forall p :: 0 <= p < |data| ==> SlotOk(data[p])
  }

  /** The last page is never empty. */
  predicate Trimmed(data: seq<Slot>) {
    data != [] ==> data[|data| - 1].page.Some?
  }

  function PageOf(slot: Slot): (page: Page)
    requires SlotOk(slot)
    ensures |page| == PAGE_LEN
  {
    if slot.page.Some? then slot.page.value else seq(PAGE_LEN, _ => 0)
  }

  function PageIn(index: nat): nat {
    index / PAGE_BITS
  }

  function WordIn(index: nat): (w: nat)
    ensures w < PAGE_LEN
  {
    index % PAGE_BITS / WORD_BITS
  }

  function BitIn(index: nat): (b: nat)
    ensures b < WORD_BITS
  {
    index % PAGE_BITS % WORD_BITS
  }

  lemma {:induction false} SameBit(i: nat, index: nat)
    ensures PageIn(i) == PageIn(index) && WordIn(i) == WordIn(index) && BitIn(i) == BitIn(index) <==> i == index
  {
  }

  predicate Has(data: seq<Slot>, index: nat)
    requires SlotsOk(data)
  {
    && PageIn(index) < |data|
    && (assert SlotOk(data[PageIn(index)]);
        data[PageIn(index)].page.Some? && InWord(data[PageIn(index)].page.value[WordIn(index)], BitIn(index)))
  }

  class SparseBitset {
    var data: seq<Slot>

    ghost predicate Valid()
      reads this
    {
      SlotsOk(data) && Trimmed(data)
    }

    constructor ()
      ensures Valid() && forall index: nat :: !Has(data, index)
    {
      data := [];
    }

    method Clear()
      modifies this
      ensures Valid() && forall index: nat :: !Has(data, index)
    {
      data := [];
    }

    method Contains(index: nat) returns (r: bool)
      requires Valid()
      ensures r <==> Has(data, index)
    {
      if PageIn(index) >= |data| {
        return false;
      }
      assert SlotOk(data[PageIn(index)]);
      var page := data[PageIn(index)].page;
      r := page.Some? && InWord(page.value[WordIn(index)], BitIn(index));
    }

    method Insert(index: nat)
      requires Valid()
      modifies this
      ensures Valid() && forall i: nat :: Has(data, i) <==> i == index || Has(old(data), i)
    {
      hide Has, SlotsOk, Trimmed, InWord, PageIn, WordIn, BitIn;
      var p, w, k := PageIn(index), WordIn(index), BitIn(index);
      ghost var before := data;
      if p >= |data| {
        data := data + seq(p + 1 - |data|, _ => Slot(None, 0));
      }
      Grown(before, data);
      ghost var grown := data;
      PageThere(grown, index);
      var page := PageOf(data[p]);
      data := data[p := Slot(Some(page), data[p].len)];
      if !InWord(page[w], k) {
        data := data[p := Slot(Some(page[w := OrBit(page[w], k)]), data[p].len + 1)];
      }
      Inserted(before, grown, data, index);
    }

    method Remove(index: nat) returns (r: bool)
      requires Valid()
      modifies this
      ensures Valid() && (r <==> Has(old(data), index))
      ensures forall i: nat :: Has(data, i) <==> i != index && Has(old(data), i)
    {
      hide InWord, PageIn, WordIn, BitIn;
      var p, w, k := PageIn(index), WordIn(index), BitIn(index);
      if p >= |data| || data[p].page.None? {
        return false;
      }
      assert SlotOk(data[p]);
      var page, len := data[p].page.value, data[p].len;
      if !InWord(page[w], k) {
        return false;
      }
      ghost var before := data;
      Cleared(before, index);
      if len - 1 == 0 {
        data := data[p := Slot(None, 0)];
        ghost var dropped := data;
        while data != [] && data[|data| - 1].page.None?
          invariant SlotsOk(data) && forall i: nat :: Has(data, i) <==> Has(dropped, i)
          decreases |data|
        {
          Popped(data);
          data := data[..|data| - 1];
        }
      } else {
        data := data[p := Slot(Some(page[w := ClearBit(page[w], k)]), len - 1)];
      }
      r := true;
    }
  }

  lemma {:induction false} Grown(before: seq<Slot>, after: seq<Slot>)
    requires SlotsOk(before) && before <= after && forall p :: |before| <= p < |after| ==> after[p] == Slot(None, 0)
    ensures SlotsOk(after) && forall i: nat :: Has(after, i) <==> Has(before, i)
  {
  }

  lemma {:induction false} Popped(data: seq<Slot>)
    requires SlotsOk(data) && data != [] && data[|data| - 1].page.None?
    ensures SlotsOk(data[..|data| - 1]) && forall i: nat :: Has(data[..|data| - 1], i) <==> Has(data, i)
  {
  }

  lemma {:induction false} InPage(slot: Slot, w: nat, k: nat)
    requires SlotOk(slot) && w < PAGE_LEN
    ensures InWord(PageOf(slot)[w], k) <==> slot.page.Some? && InWord(slot.page.value[w], k)
  {
    ZeroWord(k);
  }

  /** Changing one bit of one word changes that index only. */
  lemma {:induction false} Stored(before: seq<Slot>, after: seq<Slot>, index: nat, word: nat, bit: bool)
    requires SlotsOk(before) && PageIn(index) < |before| && SlotOk(before[PageIn(index)])
    requires var p, w, k := PageIn(index), WordIn(index), BitIn(index);
             var page := PageOf(before[p]);
             && (forall j: nat :: InWord(word, j) <==> if j == k then bit else InWord(page[w], j))
             && Total(page[w := word]) > 0
             && after == before[p := Slot(Some(page[w := word]), Total(page[w := word]))]
    ensures SlotsOk(after) && forall i: nat :: Has(after, i) <==> if i == index then bit else Has(before, i)
  {
    var p, w, k := PageIn(index), WordIn(index), BitIn(index);
    forall q | 0 <= q < |after| ensures SlotOk(after[q]) {
      assert q != p ==> after[q] == before[q];
    }
    forall i: nat ensures Has(after, i) <==> if i == index then bit else Has(before, i) {
      hide PageIn, WordIn, BitIn, InWord;
      SameBit(i, index);
      if PageIn(i) == p {
        InPage(before[p], WordIn(i), BitIn(i));
      }
    }
  }

  lemma {:induction false} PageThere(data: seq<Slot>, index: nat)
    requires SlotsOk(data) && PageIn(index) < |data|
    ensures SlotOk(data[PageIn(index)])
  {
  }

  lemma {:induction false} Inserted(before: seq<Slot>, grown: seq<Slot>, after: seq<Slot>, index: nat)
    requires SlotsOk(before) && SlotsOk(grown) && Trimmed(before)
    requires grown == before || |grown| == PageIn(index) + 1
    requires PageIn(index) < |grown| && forall i: nat :: Has(grown, i) <==> Has(before, i)
    requires SlotOk(grown[PageIn(index)])
    requires var p, w, k := PageIn(index), WordIn(index), BitIn(index);
             var page := PageOf(grown[p]);
             after == grown[p := if InWord(page[w], k) then Slot(Some(page), grown[p].len)
                                 else Slot(Some(page[w := OrBit(page[w], k)]), grown[p].len + 1)]
    ensures SlotsOk(after) && Trimmed(after)
    ensures forall i: nat :: Has(after, i) <==> i == index || Has(before, i)
  {
    hide PageIn, WordIn, BitIn, InWord, Has;
    var p, w, k := PageIn(index), WordIn(index), BitIn(index);
    assert SlotOk(grown[p]);
    var page := PageOf(grown[p]);
    var word := if InWord(page[w], k) then page[w] else OrBit(page[w], k);
    NewPage(PAGE_LEN);
    OnesOr(page[w], k);
    TotalUpdate(page, w, word);
    forall j: nat ensures InWord(word, j) <==> if j == k then true else InWord(page[w], j) {
      OrWord(page[w], k, j);
    }
    WordHas(page[w := word], w, k);
    assert page[w := page[w]] == page;
    assert after == grown[p := Slot(Some(page[w := word]), Total(page[w := word]))];
    Stored(grown, after, index, word, true);
    forall i: nat ensures Has(after, i) <==> i == index || Has(before, i) {
      assert Has(grown, i) <==> Has(before, i);
    }
  }

  lemma {:induction false} OrWord(word: nat, k: nat, j: nat)
    ensures InWord(OrBit(word, k), j) <==> j == k || InWord(word, j)
  {
    OrBitSets(word, k, j);
  }

  /** A page holding a bit counts it. */
  lemma {:induction false} WordHas(page: Page, w: nat, k: nat)
    requires w < |page| && InWord(page[w], k)
    ensures Total(page) > 0
  {
    OnesClear(page[w], k);
    TotalUpdate(page, w, ClearBit(page[w], k));
  }

  lemma {:induction false} Cleared(before: seq<Slot>, index: nat)
    requires SlotsOk(before) && Has(before, index)
    ensures var p, w, k := PageIn(index), WordIn(index), BitIn(index);
            && SlotOk(before[p])
            && var page := PageOf(before[p]);
               var after := before[p := if before[p].len - 1 == 0 then Slot(None, 0)
                                        else Slot(Some(page[w := ClearBit(page[w], k)]), before[p].len - 1)];
               && SlotsOk(after) && (before[p].len - 1 > 0 && Trimmed(before) ==> Trimmed(after))
               && forall i: nat :: Has(after, i) <==> i != index && Has(before, i)
  {
    hide PageIn, WordIn, BitIn, InWord;
    var p, w, k := PageIn(index), WordIn(index), BitIn(index);
    assert SlotOk(before[p]);
    var page := PageOf(before[p]);
    var word := ClearBit(page[w], k);
    OnesClear(page[w], k);
    TotalUpdate(page, w, word);
    forall j: nat ensures InWord(word, j) <==> if j == k then false else InWord(page[w], j) {
      ClearBitClears(page[w], k, j);
    }
    if before[p].len - 1 == 0 {
      DroppedPage(before, index, page[w := word]);
    } else {
      Stored(before, before[p := Slot(Some(page[w := word]), Total(page[w := word]))], index, word, false);
    }
  }

  /** A page with no bit left but the one that goes is dropped. */
  lemma {:induction false} DroppedPage(before: seq<Slot>, index: nat, left: Page)
    requires SlotsOk(before) && PageIn(index) < |before| && SlotOk(before[PageIn(index)]) && Total(left) == 0
    requires var p, w, k := PageIn(index), WordIn(index), BitIn(index);
             var page := PageOf(before[p]);
             |left| == PAGE_LEN && (forall v :: 0 <= v < PAGE_LEN && v != w ==> left[v] == page[v])
             && forall j: nat :: InWord(left[w], j) <==> j != k && InWord(page[w], j)
    ensures var after := before[PageIn(index) := Slot(None, 0)];
            SlotsOk(after) && forall i: nat :: Has(after, i) <==> i != index && Has(before, i)
  {
    var p := PageIn(index);
    var after := before[p := Slot(None, 0)];
    forall q | 0 <= q < |after| ensures SlotOk(after[q]) {
      assert q != p ==> after[q] == before[q];
    }
    forall i: nat ensures Has(after, i) <==> i != index && Has(before, i) {
      hide PageIn, WordIn, BitIn, InWord;
      SameBit(i, index);
      if PageIn(i) == p {
        EmptyPage(left, WordIn(i));
        ZeroWord(BitIn(i));
        InPage(before[p], WordIn(i), BitIn(i));
      }
    }
  }
}
