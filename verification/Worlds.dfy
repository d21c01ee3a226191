/** A shard's world: the registry of its entities and a table of each component. */
module Worlds {
  import opened Wrappers
  import opened Entities
  import opened Registries
  import opened SparseSets
  import SparseArrays

  class World<T> {
    const registry: Registry
    /** One table per component, by the component's id. */
    const tables: seq<SparseSet<T>>

    ghost predicate Apart() {
      forall i, j :: 0 <= i < j < |tables| ==> tables[i] != tables[j] && tables[i].sparse != tables[j].sparse
    }

    ghost function Storage(): set<object> {
      (set i | 0 <= i < |tables| :: tables[i]) + (set i | 0 <= i < |tables| :: tables[i].sparse)
    }

    ghost function Repr(): set<object> {
      {registry, registry.local, registry.universal} + Storage()
    }

    ghost predicate TablesValid()
      reads Repr()
    {
      forall i :: 0 <= i < |tables| ==> tables[i].Valid()
    }

    /** Every entity stored in a table is alive, and stored at its own index. */
    ghost predicate Stored(i: nat)
      requires i < |tables| && tables[i].Valid()
      reads registry, registry.local, tables[i], tables[i].sparse
    {
      AllAlive(registry.local.generations, tables[i].Held())
    }

    ghost predicate Valid()
      reads Repr()
    {
      registry.Valid() && Apart() && TablesValid()
    }

    /** Nothing is stored of an entity that is not alive, as when components are given only to live ones. */
    ghost predicate NoneStale()
      requires TablesValid()
      reads Repr()
    {
      forall i :: 0 <= i < |tables| ==> Stored(i)
    }

    /** What table `i` holds. */
    ghost function Held(i: nat): Contents<T>
      requires i < |tables| && tables[i].Valid()
      reads tables[i], tables[i].sparse
    {
      tables[i].Held()
    }

    constructor (registry: Registry, tables: seq<SparseSet<T>>)
      requires registry.Valid()
      requires forall i, j :: 0 <= i < j < |tables| ==> tables[i] != tables[j] && tables[i].sparse != tables[j].sparse
      requires forall i :: 0 <= i < |tables| ==> tables[i].Valid() && tables[i].Held() == map[]
      ensures Valid() && NoneStale() && this.registry == registry && this.tables == tables
    {
      this.registry := registry;
      this.tables := tables;
    }

    /** A new entity, in a slot recycled or not, is in no table, with nothing stale, and has no id. */
    method Spawn() returns (e: Entity)
      requires Valid() && (registry.local.frees != [] || |registry.local.generations| <= Entities.U32_MAX)
      modifies registry, registry.local
      ensures Valid() && registry.Alive(e) && e !in old(registry.local.issued)
      ensures forall i :: 0 <= i < |tables| ==> Held(i) == old(Held(i))
      ensures old(NoneStale()) ==> NoneStale() && forall i :: 0 <= i < |tables| ==> e.index !in Held(i)
      ensures registry.toLocal == old(registry.toLocal) && forall uid :: uid in registry.toLocal ==> registry.toLocal[uid] != e
    {
      hide Mapped, Booked, ContentsOf;
      ghost var before := registry.local.generations;
      AllIssued();
      e := registry.Spawn();
      ghost var after := registry.local.generations;
      assert forall other :: registry.Alive(other) <==> AliveIn(after, other);
      assert forall other :: AliveIn(after, other) <==> AliveIn(before, other) || other == e;
      forall i | 0 <= i < |tables|
        ensures tables[i].Valid() && Held(i) == old(Held(i))
        ensures old(NoneStale()) ==> e.index !in Held(i) && Stored(i)
      {
        if old(NoneStale()) {
          assert old(Stored(i));
          NewHolder(before, after, Held(i), e);
          StaysAlive(before, after, Held(i));
        }
      }
    }

    /** Every live entity has been issued. */
    lemma {:induction false} AllIssued()
      requires Valid()
      ensures forall e :: registry.Alive(e) ==> e in registry.local.issued
    {
    }

    /** An entity dies, with every component it has; those stored under stale handles stay. */
    method Despawn(e: Entity) returns (done: bool)
      requires Valid()
      modifies Repr()
      ensures Valid() && (done <==> old(registry.Alive(e)))
      ensures forall other :: registry.Alive(other) <==> old(registry.Alive(other)) && other != e
      ensures forall i :: 0 <= i < |tables| ==> Held(i) == if done then Dropped(old(Held(i)), e) else old(Held(i))
      ensures old(NoneStale()) ==> NoneStale() && forall i :: 0 <= i < |tables| && done ==> e.index !in Held(i)
      ensures forall uid :: uid in registry.toLocal <==> uid in old(registry.toLocal) && old(registry.toLocal)[uid] != e
    {
      hide Mapped, Booked, ContentsOf, AllAlive, AliveIn, DistinctIndexes, Dropped;
      ghost var before := registry.local.generations;
      done := registry.Despawn(e);
      ghost var after := registry.local.generations;
      assert forall other :: registry.Alive(other) <==> AliveIn(after, other);
      assert forall other :: AliveIn(after, other) <==> AliveIn(before, other) && other != e;
      if done {
        DropComponents(e);
      }
      if old(NoneStale()) {
        forall i | 0 <= i < |tables| ensures Stored(i) && (done ==> e.index !in Held(i)) {
          assert old(Stored(i)) && registry.local.generations == after;
          if done {
            assert Held(i) == Dropped(old(Held(i)), e);
            OthersAlive(before, after, old(Held(i)), e);
          } else {
            assert Held(i) == old(Held(i)) && !AliveIn(before, e);
            StaysAlive(before, after, Held(i));
          }
        }
      }
    }

    /** Drops an entity's components. */
    method DropComponents(e: Entity)
      requires Apart() && TablesValid()
      modifies Storage()
      ensures TablesValid()
      ensures forall i :: 0 <= i < |tables| ==> Held(i) == Dropped(old(Held(i)), e)
    {
      hide ContentsOf;
      for i := 0 to |tables|
        invariant TablesValid()
        invariant forall j :: 0 <= j < |tables| ==> Held(j) == if j < i then Dropped(old(Held(j)), e) else old(Held(j))
      {
        var removed := tables[i].Remove(e);
      }
    }

    /** Gives an entity a component; with nothing stale before, there is nothing after exactly when the entity is alive. */
    method Insert(component: nat, e: Entity, value: T) returns (r: Option<T>)
      requires Valid() && component < |tables| && (e.index !in Held(component) ==> |Held(component)| < SparseArrays.U32_MAX)
      modifies tables[component], tables[component].sparse
      ensures Valid() && (old(NoneStale()) ==> (NoneStale() <==> registry.Alive(e)))
      ensures forall i :: 0 <= i < |tables| ==>
                Held(i) == if i == component then old(Held(i))[e.index := (e, value)] else old(Held(i))
      ensures r == if e.index in old(Held(component)) then Some(old(Held(component))[e.index].1) else None
    {
      hide Mapped, Booked, ContentsOf, AliveIn;
      r := tables[component].Insert(e, value);
      if old(NoneStale()) {
        forall i | 0 <= i < |tables| ensures Stored(i) <==> i != component || registry.Alive(e) {
          assert old(Stored(i));
          assert i == component ==> Held(i)[e.index].0 == e;
        }
        assert Stored(component) <==> registry.Alive(e);
        assert registry.Alive(e) ==> NoneStale();
      }
    }

    /** A new local entity for an id from elsewhere, in no table, with nothing stale, and with no other id. */
    method Adopt(uid: UniversalId) returns (r: Option<Entity>)
      requires Valid()
      requires uid !in registry.toLocal ==> registry.local.frees != [] || |registry.local.generations| <= Entities.U32_MAX
      modifies registry, registry.local
      ensures Valid() && (r.None? <==> uid in old(registry.toLocal))
      ensures forall i :: 0 <= i < |tables| ==> Held(i) == old(Held(i))
      ensures r.Some? ==>
                && registry.Alive(r.value) && r.value !in old(registry.local.issued)
                && registry.toLocal == old(registry.toLocal)[uid := r.value]
                && forall other :: other in registry.toLocal && registry.toLocal[other] == r.value ==> other == uid
      ensures old(NoneStale()) ==> NoneStale() && (r.Some? ==> forall i :: 0 <= i < |tables| ==> r.value.index !in Held(i))
      ensures r.None? ==> registry.toLocal == old(registry.toLocal)
    {
      hide Mapped, Booked, ContentsOf;
      ghost var before := registry.local.generations;
      AllIssued();
      r := registry.Adopt(uid);
      ghost var after := registry.local.generations;
      assert forall other :: registry.Alive(other) <==> AliveIn(after, other);
      assert forall other :: AliveIn(after, other) <==> AliveIn(before, other) || (r.Some? && other == r.value);
      forall i | 0 <= i < |tables|
        ensures tables[i].Valid() && Held(i) == old(Held(i))
        ensures old(NoneStale()) ==> (r.Some? ==> r.value.index !in Held(i)) && Stored(i)
      {
        if old(NoneStale()) {
          assert old(Stored(i));
          if r.Some? {
            NewHolder(before, after, Held(i), r.value);
          }
          StaysAlive(before, after, Held(i));
        }
      }
    }
  }

  /** What is held without an entity's own component; a stale handle has none. */
  function Dropped<T>(held: Contents<T>, e: Entity): Contents<T> {
    if e.index in held && held[e.index].0 == e then held - {e.index} else held
  }

  /** No table holds anything at the index of an entity that was not alive before. */
  lemma {:induction false} NewHolder<T>(before: seq<nat>, after: seq<nat>, held: Contents<T>, e: Entity)
    requires !AliveIn(before, e)
    requires forall other :: AliveIn(after, other) <==> AliveIn(before, other) || other == e
    requires AllAlive(before, held)
    ensures e.index !in held
  {
  }

  /** Every entity held is alive, and held at its own index. */
  ghost predicate AllAlive<T>(generations: seq<nat>, held: Contents<T>) {
    forall index :: index in held ==> AliveIn(generations, held[index].0) && held[index].0.index == index
  }

  lemma {:induction false} StaysAlive<T>(before: seq<nat>, after: seq<nat>, held: Contents<T>)
    requires AllAlive(before, held) && forall e :: AliveIn(before, e) ==> AliveIn(after, e)
    ensures AllAlive(after, held)
  {
  }

  /** Without the entity that dies, every entity held stays alive. */
  lemma {:induction false} OthersAlive<T>(before: seq<nat>, after: seq<nat>, held: Contents<T>, e: Entity)
    requires AllAlive(before, held) && AliveIn(before, e)
    requires forall other :: AliveIn(after, other) <==> AliveIn(before, other) && other != e
    ensures AllAlive(after, Dropped(held, e)) && e.index !in Dropped(held, e)
  {
  }
}
