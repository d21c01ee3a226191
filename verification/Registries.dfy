/** A shard's entities and the cluster-wide ids of those addressed from outside. */
module Registries {
  import opened Wrappers
  import opened Entities

  const U64_MAX: nat := 0xffff_ffff_ffff_ffff

  /** An id: which shard made it, and how many it had made before. Where the entity lives now is not part of it. */
  datatype UniversalId = UniversalId(node: nat, shard: nat, serial: nat)

  /** Mints ids for one shard. */
  class UniversalAllocator {
    const node: nat
    const shard: nat
    var next: nat

    constructor (node: nat, shard: nat, start: nat)
      ensures this.node == node && this.shard == shard && next == start
    {
      this.node, this.shard, this.next := node, shard, start;
    }

    predicate Mints(uid: UniversalId)
    {
      uid.node == node && uid.shard == shard
    }

    method TryAlloc() returns (r: Option<UniversalId>)
      modifies this
      ensures r.Some? <==> old(next) < U64_MAX
      ensures r.Some? ==> r.value == UniversalId(node, shard, old(next)) && next == old(next) + 1
      ensures r.None? ==> next == old(next)
    {
      if next >= U64_MAX {
        return None;
      }
      r := Some(UniversalId(node, shard, next));
      next := next + 1;
    }
  }

  /**
   The two directions are inverse: an id leads to a live entity whose slot holds the id, and a slot
   holding an id is the one the id leads to.
   */
  ghost predicate Mapped(generations: seq<nat>, toUniversal: seq<Option<UniversalId>>, toLocal: map<UniversalId, Entity>) {
    && (forall uid :: uid in toLocal ==>
          && AliveIn(generations, toLocal[uid]) && toLocal[uid].index < |toUniversal|
          && toUniversal[toLocal[uid].index] == Some(uid))
    && forall i :: 0 <= i < |toUniversal| && toUniversal[i].Some? ==>
         toUniversal[i].value in toLocal && toLocal[toUniversal[i].value].index == i
  }

  class Registry {
    const local: Allocator
    const universal: UniversalAllocator
    var toUniversal: seq<Option<UniversalId>>
    var toLocal: map<UniversalId, Entity>

    ghost predicate Valid()
      reads this, local, universal
    {
      local.Valid() && Mapped(local.generations, toUniversal, toLocal)
    }

    /** Every id about that this shard's minter could have made, it made before the one it makes next. */
    ghost predicate Behind()
      reads this, universal
    {
      forall uid :: uid in toLocal && universal.Mints(uid) ==> uid.serial < universal.next
    }

    /** `e` is alive and its slot holds `uid`. */
    ghost predicate Carries(e: Entity, uid: UniversalId)
      reads this, local
    {
      Alive(e) && e.index < |toUniversal| && toUniversal[e.index] == Some(uid)
    }

    ghost predicate Promoted(e: Entity)
      reads this, local
    {
      exists uid :: Carries(e, uid)
    }

    predicate Alive(e: Entity)
      reads this, local
    {
      AliveIn(local.generations, e)
    }

    constructor (universal: UniversalAllocator)
      ensures Valid() && Behind() && this.universal == universal && fresh(local) && toLocal == map[] && forall e :: !Alive(e)
      ensures local.issued == {}
    {
      this.local := new Allocator();
      this.universal := universal;
      this.toUniversal := [];
      this.toLocal := map[];
    }

    /** A new entity, with no id until promoted. */
    method Spawn() returns (e: Entity)
      requires Valid() && (local.frees != [] || |local.generations| <= Entities.U32_MAX)
      modifies this, local
      ensures Valid() && toLocal == old(toLocal) && Behind() == old(Behind())
      ensures e !in old(local.issued) && local.issued == old(local.issued) + {e}
      ensures forall other :: Alive(other) <==> old(Alive(other)) || other == e
      ensures forall uid :: uid in toLocal ==> toLocal[uid] != e
    {
      hide Booked;
      NotIssued(local.generations, local.frees, local.alive, local.issued, toUniversal, toLocal);
      e := local.Alloc();
    }

    /** An entity dies, and its id leads nowhere from then on. */
    method Despawn(e: Entity) returns (done: bool)
      requires Valid()
      modifies this, local
      ensures Valid() && (old(Behind()) ==> Behind()) && local.issued == old(local.issued)
      ensures done <==> old(Alive(e))
      ensures forall other :: Alive(other) <==> old(Alive(other)) && other != e
      ensures forall uid :: uid in toLocal <==> uid in old(toLocal) && old(toLocal)[uid] != e
      ensures forall uid :: uid in toLocal ==> toLocal[uid] == old(toLocal)[uid]
    {
      hide Booked;
      done := local.Dealloc(e);
      if !done {
        return;
      }
      if e.index < |toUniversal| && toUniversal[e.index].Some? {
        var uid := toUniversal[e.index].value;
        toUniversal := toUniversal[e.index := None];
        toLocal := map other | other in toLocal && other != uid :: toLocal[other];
      }
    }

    /** An entity's id, if it has one: the only one that leads to it. */
    method Universal(e: Entity) returns (r: Option<UniversalId>)
      requires Valid()
      ensures forall uid :: r == Some(uid) <==> uid in toLocal && toLocal[uid] == e
    {
      var alive := local.IsAlive(e);
      r := if alive && e.index < |toUniversal| then toUniversal[e.index] else None;
    }

    /**
     The id of an entity, minted on first use; minting panics once serials run out. The directions
     stay inverse exactly when the id minted was not already about, so always with ids behind.
     */
    method Promote(e: Entity) returns (r: Option<UniversalId>)
      requires Valid() && (Alive(e) && !Promoted(e) ==> universal.next < U64_MAX)
      modifies this, universal
      ensures r.Some? <==> Alive(e)
      ensures !Alive(e) || old(Promoted(e)) ==> Valid() && toLocal == old(toLocal) && universal.next == old(universal.next)
      ensures old(Promoted(e)) ==> r.Some? && old(Carries(e, r.value))
      ensures Alive(e) && !old(Promoted(e)) ==>
                && r == Some(UniversalId(universal.node, universal.shard, old(universal.next)))
                && universal.next == old(universal.next) + 1
                && toLocal == old(toLocal)[r.value := e]
                && (Valid() <==> r.value !in old(toLocal))
      ensures old(Behind()) ==> Valid() && Behind()
    {
      hide Booked;
      var alive := local.IsAlive(e);
      if !alive {
        return None;
      }
      ghost var slots, locals := toUniversal, toLocal;
      if e.index >= |toUniversal| {
        toUniversal := toUniversal + seq(e.index + 1 - |toUniversal|, _ => None);
      }
      if toUniversal[e.index].Some? {
        assert old(Carries(e, slots[e.index].value));
        return toUniversal[e.index];
      }
      r := universal.TryAlloc();
      toUniversal := toUniversal[e.index := r];
      toLocal := toLocal[r.value := e];
      Minted(local.generations, slots, locals, toUniversal, e, r.value);
    }

    /** The live entity carrying an id, if it is here. */
    method Resolve(uid: UniversalId) returns (r: Option<Entity>)
      requires Valid()
      ensures forall e :: r == Some(e) <==> Carries(e, uid)
      ensures r.None? <==> uid !in toLocal
    {
      r := if uid in toLocal then Some(toLocal[uid]) else None;
    }

    /** A new local entity for an id from elsewhere, which is behind unless this shard has yet to mint it. */
    method Adopt(uid: UniversalId) returns (r: Option<Entity>)
      requires Valid() && (uid !in toLocal ==> local.frees != [] || |local.generations| <= Entities.U32_MAX)
      modifies this, local
      ensures Valid() && (Behind() <==> old(Behind()) && (universal.Mints(uid) ==> uid.serial < universal.next))
      ensures r.None? <==> uid in old(toLocal)
      ensures r.None? ==> toLocal == old(toLocal) && local.issued == old(local.issued) && forall e :: Alive(e) <==> old(Alive(e))
      ensures r.Some? ==>
                && toLocal == old(toLocal)[uid := r.value]
                && r.value !in old(local.issued) && local.issued == old(local.issued) + {r.value}
                && (forall e :: Alive(e) <==> old(Alive(e)) || e == r.value)
                && forall other :: other in toLocal && toLocal[other] == r.value ==> other == uid
    {
      hide Booked;
      if uid in toLocal {
        return None;
      }
      NotIssued(local.generations, local.frees, local.alive, local.issued, toUniversal, toLocal);
      ghost var alive := local.generations;
      var e := local.Alloc();
      NewSlot(alive, local.generations, toUniversal, toLocal, e);
      if e.index >= |toUniversal| {
        toUniversal := toUniversal + seq(e.index + 1 - |toUniversal|, _ => None);
      }
      toUniversal := toUniversal[e.index := Some(uid)];
      toLocal := toLocal[uid := e];
      r := Some(e);
    }
  }

  /** A live entity has been issued. */
  lemma {:induction false} NotIssued(generations: seq<nat>, frees: seq<nat>, alive: nat, issued: set<Entity>,
      toUniversal: seq<Option<UniversalId>>, toLocal: map<UniversalId, Entity>)
    requires Booked(generations, frees, alive, issued) && Mapped(generations, toUniversal, toLocal)
    ensures forall uid :: uid in toLocal ==> toLocal[uid] in issued
    ensures forall e :: AliveIn(generations, e) ==> e in issued
  {
  }

  /** The slot of a new entity holds no id. */
  lemma {:induction false} NewSlot(before: seq<nat>, after: seq<nat>, toUniversal: seq<Option<UniversalId>>,
      toLocal: map<UniversalId, Entity>, e: Entity)
    requires Mapped(before, toUniversal, toLocal) && !AliveIn(before, e)
    requires forall other :: AliveIn(after, other) <==> AliveIn(before, other) || other == e
    ensures e.index < |toUniversal| ==> toUniversal[e.index].None?
  {
  }

  /** Giving a live entity without an id the id `uid` keeps the directions inverse exactly when it led nowhere. */
  lemma {:induction false} Minted(generations: seq<nat>, slots: seq<Option<UniversalId>>, toLocal: map<UniversalId, Entity>,
      after: seq<Option<UniversalId>>, e: Entity, uid: UniversalId)
    requires Mapped(generations, slots, toLocal) && AliveIn(generations, e) && (e.index < |slots| ==> slots[e.index].None?)
    requires |after| >= |slots| && e.index < |after| && after[e.index] == Some(uid)
    requires forall i :: 0 <= i < |after| && i != e.index ==> after[i] == if i < |slots| then slots[i] else None
    ensures Mapped(generations, after, toLocal[uid := e]) <==> uid !in toLocal
  {
    if uid in toLocal {
      assert after[toLocal[uid].index] == Some(uid);
    }
  }
}
