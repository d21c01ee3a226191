/** One component's storage: a packed run of entities and components, found through a sparse array. */
module SparseSets {
  import opened Wrappers
  import opened Entities
  import SparseArrays

  /** Page length of a component's sparse array. */
  const PAGE_LEN: nat := 1024

  /** What a set holds: for each index, the entity and its component. */
  type Contents<T> = map<nat, (Entity, T)>

  ghost function ContentsOf<T>(dense: seq<Entity>, data: seq<T>): Contents<T>
    requires |dense| == |data|
  {
    if dense == [] then map[]
    else
      var n := |dense| - 1;
      ContentsOf(dense[..n], data[..n])[dense[n].index := (dense[n], data[n])]
  }

  ghost predicate DistinctIndexes(dense: seq<Entity>) {
    forall j, k :: 0 <= j < k < |dense| ==> dense[j].index != dense[k].index
  }

  class SparseSet<T> {
    const sparse: SparseArrays.SparseArray
    var dense: seq<Entity>
    var data: seq<T>

    ghost predicate Valid()
      reads this, sparse
    {
      && sparse.Valid() && sparse.n == PAGE_LEN && |dense| == |data|
      && DistinctIndexes(dense)
      && (forall k :: 0 <= k < |dense| ==> sparse.Entry(dense[k].index) == Some(k))
      && forall index: nat :: sparse.Entry(index).Some? ==>
           sparse.Entry(index).value < |dense| && dense[sparse.Entry(index).value].index == index
    }

    ghost function Held(): (r: Contents<T>)
      reads this, sparse
      requires Valid()
    {
      ContentsOf(dense, data)
    }

    constructor ()
      ensures Valid() && fresh(sparse) && Held() == map[] && dense == []
    {
      sparse := new SparseArrays.SparseArray(PAGE_LEN);
      dense, data := [], [];
    }

    method Clear()
      requires Valid()
      modifies this, sparse
      ensures Valid() && Held() == map[]
    {
      sparse.Clear();
      dense, data := [], [];
    }

    method Len() returns (n: nat)
      requires Valid()
      ensures n == |dense| == |Held()|
    {
      HeldSize(dense, data);
      n := |dense|;
    }

    /** The component of the slot's entity before, of whatever generation, is replaced. */
    method Insert(e: Entity, component: T) returns (r: Option<T>)
      requires Valid() && (e.index !in Held() ==> |Held()| < SparseArrays.U32_MAX)
      modifies this, sparse
      ensures Valid() && Held() == old(Held())[e.index := (e, component)]
      ensures r == if e.index in old(Held()) then Some(old(Held())[e.index].1) else None
    {
      hide ContentsOf;
      HeldSize(dense, data);
      var at := sparse.Get(e.index);
      if at.Some? {
        HeldAt(dense, data, at.value);
        r := Some(data[at.value]);
        ReplacedAt(dense, data, at.value, e, component);
        dense := dense[at.value := e];
        data := data[at.value := component];
      } else {
        NoneAt(e.index);
        Pushed(dense, data, e, component);
        sparse.Insert(e.index, |dense|);
        dense, data := dense + [e], data + [component];
        r := None;
      }
    }

    /** Takes out an entity's component; the last one takes its place. */
    method Remove(e: Entity) returns (r: Option<T>)
      requires Valid()
      modifies this, sparse
      ensures Valid() && (r.Some? <==> e.index in old(Held()) && old(Held())[e.index].0 == e)
      ensures r.Some? ==> r.value == old(Held())[e.index].1 && Held() == old(Held()) - {e.index}
      ensures r.None? ==> Held() == old(Held())
    {
      hide ContentsOf, SparseArrays.At, SparseArrays.SlotsOk, SparseArrays.Trimmed;
      var at := IndexOf(e);
      if at.None? {
        return None;
      }
      var k, last := at.value, |dense| - 1;
      r := Some(data[k]);
      SwapRemoved(dense, data, k);
      ghost var before := dense;
      sparse.EntrySmall(before[k].index);
      var removed := sparse.Remove(e.index);
      // `swap_remove`: the last takes the place of the one that goes.
      dense := dense[k := dense[last]][..last];
      data := data[k := data[last]][..last];
      assert forall j :: 0 <= j < last && j != k ==> dense[j] == before[j];
      if k < |dense| {
        assert dense[k] == before[last];
        sparse.Insert(dense[k].index, k);
      }
    }

    lemma {:induction false} NoneAt(index: nat)
      requires Valid() && sparse.Entry(index).None?
      ensures index !in Held() && forall k :: 0 <= k < |dense| ==> dense[k].index != index
    {
      hide ContentsOf;
      NotHeld(dense, data, index);
    }

    /** `index_of`: a stale handle finds nothing. */
    method IndexOf(e: Entity) returns (r: Option<nat>)
      requires Valid()
      ensures r.Some? <==> e.index in Held() && Held()[e.index].0 == e
      ensures r.Some? ==> r.value < |dense| && dense[r.value] == e && Held()[e.index].1 == data[r.value]
    {
      hide ContentsOf;
      var at := sparse.Get(e.index);
      if at.None? {
        NoneAt(e.index);
        return None;
      }
      HeldAt(dense, data, at.value);
      r := if dense[at.value] == e then at else None;
    }

    method Contains(e: Entity) returns (r: bool)
      requires Valid()
      ensures r <==> e.index in Held() && Held()[e.index].0 == e
    {
      var at := IndexOf(e);
      r := at.Some?;
    }

    method Get(e: Entity) returns (r: Option<T>)
      requires Valid()
      ensures r == if e.index in Held() && Held()[e.index].0 == e then Some(Held()[e.index].1) else None
    {
      var at := IndexOf(e);
      r := if at.Some? then Some(data[at.value]) else None;
    }

    /** `get_mut`, writing through the reference it gives. */
    method Set(e: Entity, component: T) returns (done: bool)
      requires Valid()
      modifies this`data
      ensures Valid() && (done <==> e.index in old(Held()) && old(Held())[e.index].0 == e)
      ensures Held() == if done then old(Held())[e.index := (e, component)] else old(Held())
    {
      var at := IndexOf(e);
      done := at.Some?;
      if done {
        ReplacedAt(dense, data, at.value, e, component);
        assert dense[at.value := e] == dense;
        data := data[at.value := component];
      }
    }
  }

  lemma {:induction false} FrontIndexes(dense: seq<Entity>)
    requires DistinctIndexes(dense) && dense != []
    ensures DistinctIndexes(dense[..|dense| - 1])
    ensures forall k :: 0 <= k < |dense| - 1 ==> dense[k].index != dense[|dense| - 1].index
  {
  }

  /** Position `k` holds what its index leads to. */
  lemma {:induction false} HeldAt<T>(dense: seq<Entity>, data: seq<T>, k: nat)
    requires |dense| == |data| && DistinctIndexes(dense) && k < |dense|
    ensures dense[k].index in ContentsOf(dense, data) && ContentsOf(dense, data)[dense[k].index] == (dense[k], data[k])
  {
    var n := |dense| - 1;
    FrontIndexes(dense);
    if k < n {
      HeldAt(dense[..n], data[..n], k);
    }
  }

  /** Every index held is at some position. */
  lemma {:induction false} HeldFrom<T>(dense: seq<Entity>, data: seq<T>, index: nat) returns (k: nat)
    requires |dense| == |data| && index in ContentsOf(dense, data)
    ensures k < |dense| && dense[k].index == index
  {
    var n := |dense| - 1;
    if dense[n].index == index {
      k := n;
    } else {
      k := HeldFrom(dense[..n], data[..n], index);
    }
  }

  /** Two runs hold the same when each position of one is held by the other. */
  lemma {:induction false} SameContents<T>(dense: seq<Entity>, data: seq<T>, held: Contents<T>)
    requires |dense| == |data| && DistinctIndexes(dense)
    requires forall k :: 0 <= k < |dense| ==> dense[k].index in held && held[dense[k].index] == (dense[k], data[k])
    requires forall index :: index in held ==> exists k :: 0 <= k < |dense| && dense[k].index == index
    ensures ContentsOf(dense, data) == held
  {
    var all := ContentsOf(dense, data);
    forall index ensures index in all <==> index in held {
      if index in all {
        var k := HeldFrom(dense, data, index);
      }
      if index in held {
        var k :| 0 <= k < |dense| && dense[k].index == index;
        HeldAt(dense, data, k);
      }
    }
    forall index | index in held ensures all[index] == held[index] {
      var k :| 0 <= k < |dense| && dense[k].index == index;
      HeldAt(dense, data, k);
    }
  }

  lemma {:induction false} HeldSize<T>(dense: seq<Entity>, data: seq<T>)
    requires |dense| == |data| && DistinctIndexes(dense)
    ensures |ContentsOf(dense, data)| == |dense|
  {
    if dense != [] {
      var n := |dense| - 1;
      FrontIndexes(dense);
      HeldSize(dense[..n], data[..n]);
      NotHeld(dense[..n], data[..n], dense[n].index);
    }
  }

  lemma {:induction false} NotHeld<T>(dense: seq<Entity>, data: seq<T>, index: nat)
    requires |dense| == |data| && forall k :: 0 <= k < |dense| ==> dense[k].index != index
    ensures index !in ContentsOf(dense, data)
  {
    if index in ContentsOf(dense, data) {
      var k := HeldFrom(dense, data, index);
      assert false;
    }
  }

  lemma {:induction false} Pushed<T>(dense: seq<Entity>, data: seq<T>, e: Entity, component: T)
    requires |dense| == |data| && DistinctIndexes(dense) && forall k :: 0 <= k < |dense| ==> dense[k].index != e.index
    ensures DistinctIndexes(dense + [e]) && e.index !in ContentsOf(dense, data)
    ensures ContentsOf(dense + [e], data + [component]) == ContentsOf(dense, data)[e.index := (e, component)]
  {
    NotHeld(dense, data, e.index);
    assert (dense + [e])[..|dense|] == dense && (data + [component])[..|data|] == data;
  }

  lemma {:induction false} ReplacedAt<T>(dense: seq<Entity>, data: seq<T>, k: nat, e: Entity, component: T)
    requires |dense| == |data| && DistinctIndexes(dense) && k < |dense| && dense[k].index == e.index
    ensures DistinctIndexes(dense[k := e])
    ensures ContentsOf(dense[k := e], data[k := component]) == ContentsOf(dense, data)[e.index := (e, component)]
  {
    hide ContentsOf;
    var es, cs, held := dense[k := e], data[k := component], ContentsOf(dense, data)[e.index := (e, component)];
    assert forall j :: 0 <= j < |dense| ==> es[j].index == dense[j].index;
    forall j | 0 <= j < |es| ensures es[j].index in held && held[es[j].index] == (es[j], cs[j]) {
      HeldAt(dense, data, j);
    }
    forall index | index in held ensures exists j :: 0 <= j < |es| && es[j].index == index {
      if index == e.index {
        assert es[k].index == index;
      } else {
        var j := HeldFrom(dense, data, index);
        assert es[j].index == index;
      }
    }
    SameContents(es, cs, held);
  }

  /** What is left when the last takes the place of position `k`. */
  lemma {:induction false} SwapRemoved<T>(dense: seq<Entity>, data: seq<T>, k: nat)
    requires |dense| == |data| && DistinctIndexes(dense) && k < |dense|
    ensures var last := |dense| - 1;
            var es, cs := dense[k := dense[last]][..last], data[k := data[last]][..last];
            && DistinctIndexes(es)
            && ContentsOf(es, cs) == ContentsOf(dense, data) - {dense[k].index}
  {
    hide ContentsOf;
    var last := |dense| - 1;
    var es, cs := dense[k := dense[last]][..last], data[k := data[last]][..last];
    assert forall j :: 0 <= j < last ==> es[j] == (if j == k then dense[last] else dense[j]);
    var held := ContentsOf(dense, data) - {dense[k].index};
    forall j | 0 <= j < |es| ensures es[j].index in held && held[es[j].index] == (es[j], cs[j]) {
      HeldAt(dense, data, if j == k then last else j);
    }
    forall index | index in held ensures exists j :: 0 <= j < |es| && es[j].index == index {
      var j := HeldFrom(dense, data, index);
      assert es[if j == last then k else j].index == index;
    }
    SameContents(es, cs, held);
  }
}
