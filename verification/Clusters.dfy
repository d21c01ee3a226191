/**
 Shards of a cluster exchanging entities. An entity moves by being freed on one shard and adopted
 on another under the same id; a shard restarts past every serial it has used.
 */
module Clusters {
  import opened Wrappers
  import opened Entities
  import opened Registries

  /** Names a shard, and what it mints. */
  datatype Key = Key(node: nat, shard: nat)

  /** What matters of a shard: the serial it mints next, and the ids that resolve on it. */
  datatype Shard = Shard(next: nat, resolves: set<UniversalId>)

  datatype Cluster = Cluster(
    shards: map<Key, Shard>,
    /** Ids of entities that have left one shard and not reached another. */
    moving: set<UniversalId>,
    /** Every id ever minted. */
    minted: set<UniversalId>)

  datatype Step =
    | Mint(key: Key)
    | Free(key: Key, uid: UniversalId)
    | Leave(key: Key, uid: UniversalId)
    | Arrive(key: Key, uid: UniversalId)
    | Lose(uid: UniversalId)
    | Restart(key: Key, start: nat)

  function MintedBy(key: Key, serial: nat): UniversalId {
    UniversalId(key.node, key.shard, serial)
  }

  function Minter(uid: UniversalId): Key {
    Key(uid.node, uid.shard)
  }

  /** A serial a shard may restart from: past all it has minted. */
  predicate PastMinted(c: Cluster, key: Key, start: nat) {
    forall uid :: uid in c.minted && Minter(uid) == key ==> uid.serial < start
  }

  /** What a step asks of the cluster; `Arrive` adopts, and nothing else brings an id to a shard. */
  predicate Enabled(c: Cluster, step: Step) {
    match step
    case Mint(key) => key in c.shards
    case Free(key, uid) => key in c.shards && uid in c.shards[key].resolves
    case Leave(key, uid) => key in c.shards && uid in c.shards[key].resolves
    case Arrive(key, uid) => key in c.shards && uid in c.moving
    case Lose(uid) => uid in c.moving
    case Restart(key, start) => key in c.shards && PastMinted(c, key, start)
  }

  function Take(c: Cluster, step: Step): Cluster
    requires Enabled(c, step)
  {
    match step
    case Mint(key) =>
      var s := c.shards[key];
      var uid := MintedBy(key, s.next);
      c.(shards := c.shards[key := Shard(s.next + 1, s.resolves + {uid})], minted := c.minted + {uid})
    case Free(key, uid) =>
      var s := c.shards[key];
      c.(shards := c.shards[key := s.(resolves := s.resolves - {uid})])
    case Leave(key, uid) =>
      var s := c.shards[key];
      c.(shards := c.shards[key := s.(resolves := s.resolves - {uid})], moving := c.moving + {uid})
    case Arrive(key, uid) =>
      var s := c.shards[key];
      c.(shards := c.shards[key := s.(resolves := s.resolves + {uid})], moving := c.moving - {uid})
    case Lose(uid) => c.(moving := c.moving - {uid})
    case Restart(key, start) => Restarted(c, key, start)
  }

  /** A shard starts again from `start`, without an entity. */
  function Restarted(c: Cluster, key: Key, start: nat): Cluster {
    c.(shards := c.shards[key := Shard(start, {})])
  }

  /** No shard resolves anything, and nothing moves or has been minted. */
  predicate Initial(c: Cluster) {
    c.moving == {} && c.minted == {} && forall key :: key in c.shards ==> c.shards[key].resolves == {}
  }

  /** Every id about was minted, by a shard whose serials are past it, and is in one place. */
  predicate Consistent(c: Cluster) {
    && (forall uid :: uid in c.minted ==> Minter(uid) in c.shards && uid.serial < c.shards[Minter(uid)].next)
    && (forall uid :: uid in c.moving ==> uid in c.minted)
    && (forall key, uid :: key in c.shards && uid in c.shards[key].resolves ==> uid in c.minted && uid !in c.moving)
    && forall k1, k2, uid :: k1 in c.shards && k2 in c.shards && uid in c.shards[k1].resolves && uid in c.shards[k2].resolves ==> k1 == k2
  }

  lemma {:induction false} StepConsistent(c: Cluster, step: Step)
    requires Consistent(c) && Enabled(c, step)
    ensures Consistent(Take(c, step)) && c.minted <= Take(c, step).minted
  {
    match step {
      case Mint(key) => assert MintedBy(key, c.shards[key].next) !in c.minted;
      case _ =>
    }
  }

  /** A run: each state comes from the one before by a step it allows. */
  predicate IsRun(states: seq<Cluster>, steps: seq<Step>) {
    && |states| == |steps| + 1 && Initial(states[0])
    && forall i :: 0 <= i < |steps| ==> Enabled(states[i], steps[i]) && states[i + 1] == Take(states[i], steps[i])
  }

  lemma {:induction false} RunConsistent(states: seq<Cluster>, steps: seq<Step>, i: nat)
    requires IsRun(states, steps) && i < |states|
    ensures Consistent(states[i])
  {
    if i > 0 {
      RunConsistent(states, steps, i - 1);
      StepConsistent(states[i - 1], steps[i - 1]);
    }
  }

  /** At every point of every run, an id resolves on at most one shard, and on none while moving. */
  lemma {:induction false} ResolvesOnce(states: seq<Cluster>, steps: seq<Step>, i: nat, k1: Key, k2: Key, uid: UniversalId)
    requires IsRun(states, steps) && i < |states|
    requires k1 in states[i].shards && uid in states[i].shards[k1].resolves
    ensures uid !in states[i].moving
    ensures k2 in states[i].shards && uid in states[i].shards[k2].resolves ==> k1 == k2
  {
    RunConsistent(states, steps, i);
  }

  lemma {:induction false} MintedGrows(states: seq<Cluster>, steps: seq<Step>, i: nat, j: nat)
    requires IsRun(states, steps) && i <= j < |states|
    ensures states[i].minted <= states[j].minted
  {
    if i < j {
      MintedGrows(states, steps, i, j - 1);
      RunConsistent(states, steps, j - 1);
      StepConsistent(states[j - 1], steps[j - 1]);
    }
  }

  /** What a shard mints next. */
  function Next(c: Cluster, key: Key): UniversalId
    requires key in c.shards
  {
    MintedBy(key, c.shards[key].next)
  }

  /** No id is ever minted twice, across shards, moves, and restarts. */
  lemma {:induction false} NeverMintedAgain(states: seq<Cluster>, steps: seq<Step>, i: nat, j: nat)
    requires IsRun(states, steps) && i < j < |steps| && steps[i].Mint? && steps[j].Mint?
    ensures steps[i].key in states[i].shards && steps[j].key in states[j].shards
    ensures Next(states[i], steps[i].key) != Next(states[j], steps[j].key)
  {
    assert Next(states[i], steps[i].key) in states[i + 1].minted;
    MintedGrows(states, steps, i + 1, j);
    RunConsistent(states, steps, j);
  }

  // ----- where a shard may restart from

  /** The serial a shard persists, of the id it mints next, is past all it has minted. */
  lemma {:induction false} PersistedSuffices(c: Cluster, key: Key, start: nat)
    requires Consistent(c) && key in c.shards && start >= c.shards[key].next
    ensures Enabled(c, Restart(key, start))
  {
  }

  /** `n` mints in a row. */
  function MintMany(c: Cluster, key: Key, n: nat): (r: Cluster)
    requires key in c.shards
    ensures key in r.shards && r.shards[key].next == c.shards[key].next + n
  {
    if n == 0 then c else Take(MintMany(c, key, n - 1), Mint(key))
  }

  /** Started any lower, the shard comes to mint an id for the second time. */
  lemma {:induction false} MintsAgain(c: Cluster, key: Key, start: nat) returns (n: nat)
    requires key in c.shards && !PastMinted(c, key, start)
    ensures Next(MintMany(Restarted(c, key, start), key, n), key) in c.minted
  {
    var uid :| uid in c.minted && Minter(uid) == key && uid.serial >= start;
    n := uid.serial - start;
    assert Next(MintMany(Restarted(c, key, start), key, n), key) == uid;
  }

  /** Restarting keeps the cluster consistent exactly when it is past all that was minted. */
  lemma {:induction false} RestartExactly(c: Cluster, key: Key, start: nat)
    requires Consistent(c) && key in c.shards
    ensures Consistent(Restarted(c, key, start)) <==> PastMinted(c, key, start)
  {
    if PastMinted(c, key, start) {
      StepConsistent(c, Restart(key, start));
    }
  }

  /** An id that arrives was minted and does not resolve there yet, so adopting it succeeds and keeps ids behind. */
  lemma {:induction false} ArrivalAdoptable(states: seq<Cluster>, steps: seq<Step>, i: nat)
    requires IsRun(states, steps) && i < |steps| && steps[i].Arrive?
    ensures var s, uid := states[i].shards[steps[i].key], steps[i].uid;
            uid !in s.resolves && (Minter(uid) == steps[i].key ==> uid.serial < s.next)
  {
    RunConsistent(states, steps, i);
  }

  // ----- the registry takes these steps

  ghost function ShardOf(registry: Registry): Shard
    reads registry, registry.universal
  {
    Shard(registry.universal.next, registry.toLocal.Keys)
  }

  /** A registry made anew is a shard just restarted. */
  method Start(node: nat, shard: nat, start: nat) returns (registry: Registry)
    ensures fresh(registry) && fresh(registry.universal) && registry.Valid() && registry.Behind()
    ensures registry.universal.node == node && registry.universal.shard == shard && ShardOf(registry) == Shard(start, {})
  {
    var universal := new UniversalAllocator(node, shard, start);
    registry := new Registry(universal);
  }

  /** Promoting an entity is a mint exactly when it is alive and has no id, and no step otherwise. */
  method Promote(registry: Registry, e: Entity) returns (r: Option<UniversalId>)
    requires registry.Valid() && registry.Behind()
    requires registry.Alive(e) && !registry.Promoted(e) ==> registry.universal.next < U64_MAX
    modifies registry, registry.universal
    ensures registry.Valid() && registry.Behind() && (r.Some? <==> registry.Alive(e))
    ensures !registry.Alive(e) || old(registry.Promoted(e)) ==> ShardOf(registry) == old(ShardOf(registry))
    ensures registry.Alive(e) && !old(registry.Promoted(e)) ==>
              var before := old(ShardOf(registry));
              && r == Some(MintedBy(Key(registry.universal.node, registry.universal.shard), before.next))
              && ShardOf(registry) == Shard(before.next + 1, before.resolves + {r.value})
  {
    r := registry.Promote(e);
  }

  /** Freeing an entity forgets its id and no other. */
  method FreeOrLeave(registry: Registry, e: Entity, ghost uid: UniversalId) returns (done: bool)
    requires registry.Valid() && uid in registry.toLocal && registry.toLocal[uid] == e
    modifies registry, registry.local
    ensures registry.Valid() && done && (old(registry.Behind()) ==> registry.Behind())
    ensures var before := old(ShardOf(registry)); ShardOf(registry) == before.(resolves := before.resolves - {uid})
  {
    ghost var slots, locals := registry.toUniversal, registry.toLocal;
    assert slots[e.index] == Some(uid);
    done := registry.Despawn(e);
    forall other ensures other in registry.toLocal <==> other in locals && other != uid {
      if other in locals && locals[other] == e {
        assert slots[e.index] == Some(other);
      }
    }
    assert registry.toLocal.Keys == locals.Keys - {uid};
  }

  /** Adopting an id makes it resolve, and is refused, without a step, where it does already. */
  method Arrival(registry: Registry, uid: UniversalId) returns (r: Option<Entity>)
    requires registry.Valid()
    requires uid !in registry.toLocal ==> registry.local.frees != [] || |registry.local.generations| <= Entities.U32_MAX
    modifies registry, registry.local
    ensures registry.Valid() && (r.None? <==> uid in old(ShardOf(registry)).resolves)
    ensures r.Some? ==> uid in registry.toLocal && registry.toLocal[uid] == r.value
    ensures var before := old(ShardOf(registry)); ShardOf(registry) == before.(resolves := before.resolves + {uid})
    ensures registry.Behind() <==> old(registry.Behind()) && (registry.universal.Mints(uid) ==> uid.serial < registry.universal.next)
  {
    r := registry.Adopt(uid);
  }
}
