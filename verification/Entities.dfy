/**
 Entity handles: an index into reusable slots, and the generation that tells apart the entities a
 slot has held. A generation is odd while its entity is alive and even once it is dead.
 */
module Entities {
  import opened Wrappers

  const U32_MAX: nat := 0xffff_ffff

  datatype Entity = Entity(index: nat, generation: nat)

  /** A handle as its two halves hold it. */
  predicate EntityOk(e: Entity) {
    e.index <= U32_MAX && 0 < e.generation <= U32_MAX
  }

  // ----- the allocator's books

  function Odds(generations: seq<nat>): nat {
    if generations == [] then 0
    else Odds(generations[..|generations| - 1]) + generations[|generations| - 1] % 2
  }

  lemma {:induction false} OddsUpdate(generations: seq<nat>, i: nat, g: nat)
    requires i < |generations|
    ensures Odds(generations[i := g]) == Odds(generations) - generations[i] % 2 + g % 2
  {
    var n := |generations| - 1;
    if i < n {
      OddsUpdate(generations[..n], i, g);
      assert generations[i := g][..n] == generations[..n][i := g];
    } else {
      assert generations[i := g][..n] == generations[..n];
    }
  }

  lemma {:induction false} OddsPositive(generations: seq<nat>, i: nat)
    requires i < |generations| && generations[i] % 2 == 1
    ensures Odds(generations) > 0
  {
    if i < |generations| - 1 {
      OddsPositive(generations[..|generations| - 1], i);
    }
  }

  predicate GenerationsOk(generations: seq<nat>) {
    |generations| <= U32_MAX + 1 && forall i :: 0 <= i < |generations| ==> 0 < generations[i] < U32_MAX
  }

  /** A slot whose entity is dead, with a generation left for another. */
  predicate Reusable(generation: nat) {
    generation % 2 == 0 && generation != U32_MAX - 1
  }

  /** The free indices are the reusable slots, each once. */
  ghost predicate FreesOk(generations: seq<nat>, frees: seq<nat>) {
    && Distinct(frees)
    && (forall k :: 0 <= k < |frees| ==> frees[k] < |generations|)
    && forall i :: 0 <= i < |generations| ==> (i in frees <==> Reusable(generations[i]))
  }

  /** The handles ever returned: each odd generation a slot has reached. */
  ghost predicate IssuedOk(generations: seq<nat>, issued: set<Entity>) {
    forall e :: e in issued <==> e.index < |generations| && e.generation % 2 == 1 && e.generation <= generations[e.index]
  }

  /**
   `alive` counts the odd generations; the free indices are, each once, the slots whose entity is
   dead and whose next generation would fit; and every handle ever returned has a generation its
   slot has reached.
   */
  ghost predicate Booked(generations: seq<nat>, frees: seq<nat>, alive: nat, issued: set<Entity>) {
    GenerationsOk(generations) && alive == Odds(generations) && FreesOk(generations, frees) && IssuedOk(generations, issued)
  }

  predicate AliveIn(generations: seq<nat>, e: Entity) {
    e.index < |generations| && generations[e.index] == e.generation && e.generation % 2 == 1
  }

  class Allocator {
    var generations: seq<nat>
    var frees: seq<nat>
    var alive: nat
    /** Every handle ever returned. */
    ghost var issued: set<Entity>

    ghost predicate Valid()
      reads this
    {
      Booked(generations, frees, alive, issued)
    }

    constructor ()
      ensures Valid() && alive == 0 && issued == {} && forall e :: !AliveIn(generations, e)
    {
      generations, frees, alive, issued := [], [], 0, {};
    }

    /** No handle is ever returned twice, and the slot freed last is used again before a new one is made. */
    method TryAlloc() returns (r: Option<Entity>)
      requires Valid()
      modifies this
      ensures Valid()
      ensures r.None? <==> old(frees) == [] && old(|generations|) > U32_MAX
      ensures r.None? ==> generations == old(generations) && alive == old(alive) && issued == old(issued)
      ensures r.Some? ==>
                && EntityOk(r.value) && r.value !in old(issued) && issued == old(issued) + {r.value}
                && alive == old(alive) + 1
                && forall e :: AliveIn(generations, e) <==> AliveIn(old(generations), e) || e == r.value
      ensures r.Some? && old(frees) != [] ==> frees + [r.value.index] == old(frees) && |generations| == old(|generations|)
      ensures r.Some? && old(frees) == [] ==> r.value == Entity(old(|generations|), 1) && frees == []
    {
      hide Booked, AliveIn;
      if frees != [] {
        var index := frees[|frees| - 1];
        Recycle(generations, frees, alive, issued);
        frees := frees[..|frees| - 1];
        generations := generations[index := generations[index] + 1];
        r := Some(Entity(index, generations[index]));
      } else {
        if |generations| > U32_MAX {
          return None;
        }
        Extend(generations, alive, issued);
        r := Some(Entity(|generations|, 1));
        generations := generations + [1];
      }
      alive := alive + 1;
      issued := issued + {r.value};
    }

    /** Panics, so is not called, once the indices are used up. */
    method Alloc() returns (e: Entity)
      requires Valid() && (frees != [] || |generations| <= U32_MAX)
      modifies this
      ensures Valid()
      ensures EntityOk(e) && e !in old(issued) && issued == old(issued) + {e} && alive == old(alive) + 1
      ensures forall other :: AliveIn(generations, other) <==> AliveIn(old(generations), other) || other == e
      ensures old(frees) != [] ==> frees + [e.index] == old(frees) && |generations| == old(|generations|)
      ensures old(frees) == [] ==> e == Entity(old(|generations|), 1) && frees == []
    {
      var r := TryAlloc();
      e := r.value;
    }

    method Dealloc(e: Entity) returns (done: bool)
      requires Valid()
      modifies this
      ensures Valid() && issued == old(issued)
      ensures done <==> AliveIn(old(generations), e)
      ensures alive == old(alive) - (if done then 1 else 0)
      ensures forall other :: AliveIn(generations, other) <==> AliveIn(old(generations), other) && other != e
      ensures |generations| == old(|generations|)
      ensures frees == if done && e.generation + 2 < U32_MAX then old(frees) + [e.index] else old(frees)
    {
      done := IsAlive(e);
      if !done {
        return;
      }
      Free(generations, frees, alive, issued, e);
      generations := generations[e.index := generations[e.index] + 1];
      if generations[e.index] != U32_MAX - 1 {
        frees := frees + [e.index];
      } // else, retire the slot
      alive := alive - 1;
    }

    method IsAlive(e: Entity) returns (r: bool)
      ensures r <==> AliveIn(generations, e)
    {
      r := e.index < |generations| && generations[e.index] == e.generation && e.generation % 2 == 1;
    }
  }

  lemma {:induction false} LastFree(generations: seq<nat>, frees: seq<nat>)
    requires FreesOk(generations, frees) && frees != []
    ensures frees[|frees| - 1] < |generations| && Reusable(generations[frees[|frees| - 1]])
  {
  }

  lemma {:induction false} TakeFree(generations: seq<nat>, frees: seq<nat>, g: nat)
    requires FreesOk(generations, frees) && frees != [] && frees[|frees| - 1] < |generations| && g % 2 == 1
    ensures FreesOk(generations[frees[|frees| - 1] := g], frees[..|frees| - 1])
  {
  }

  lemma {:induction false} AddFree(generations: seq<nat>, frees: seq<nat>, i: nat, g: nat)
    requires FreesOk(generations, frees) && i < |generations| && generations[i] % 2 == 1
    ensures FreesOk(generations[i := g], if Reusable(g) then frees + [i] else frees)
  {
  }

  /** A slot moves on by one generation: what is issued grows when the generation is odd. */
  lemma {:induction false} NextIssued(generations: seq<nat>, issued: set<Entity>, i: nat)
    requires IssuedOk(generations, issued) && i < |generations|
    ensures var g := generations[i] + 1;
            && (g % 2 == 0 ==> IssuedOk(generations[i := g], issued))
            && (g % 2 == 1 ==> Entity(i, g) !in issued && IssuedOk(generations[i := g], issued + {Entity(i, g)}))
  {
  }

  lemma {:induction false} NextAlive(generations: seq<nat>, i: nat)
    requires i < |generations|
    ensures var g := generations[i] + 1;
            forall e :: AliveIn(generations[i := g], e) <==>
              if e.index == i then g % 2 == 1 && e == Entity(i, g) else AliveIn(generations, e)
  {
  }

  /** A dead slot holds a new entity, of the next generation. */
  lemma {:induction false} Recycle(generations: seq<nat>, frees: seq<nat>, alive: nat, issued: set<Entity>)
    requires Booked(generations, frees, alive, issued) && frees != []
    ensures var i := frees[|frees| - 1];
            && i < |generations|
            && var e, after := Entity(i, generations[i] + 1), generations[i := generations[i] + 1];
               && EntityOk(e) && e !in issued
               && Booked(after, frees[..|frees| - 1], alive + 1, issued + {e})
               && forall other :: AliveIn(after, other) <==> AliveIn(generations, other) || other == e
  {
    hide Odds, IssuedOk, FreesOk;
    var i := frees[|frees| - 1];
    LastFree(generations, frees);
    OddsUpdate(generations, i, generations[i] + 1);
    TakeFree(generations, frees, generations[i] + 1);
    NextIssued(generations, issued, i);
    NextAlive(generations, i);
  }

  /** A slot never used before. */
  lemma {:induction false} Extend(generations: seq<nat>, alive: nat, issued: set<Entity>)
    requires Booked(generations, [], alive, issued) && |generations| <= U32_MAX
    ensures var e, after := Entity(|generations|, 1), generations + [1];
            && EntityOk(e) && e !in issued
            && Booked(after, [], alive + 1, issued + {e})
            && forall other :: AliveIn(after, other) <==> AliveIn(generations, other) || other == e
  {
  }

  /** An entity dies; its slot is free unless its generations are used up. */
  lemma {:induction false} Free(generations: seq<nat>, frees: seq<nat>, alive: nat, issued: set<Entity>, e: Entity)
    requires Booked(generations, frees, alive, issued) && AliveIn(generations, e)
    ensures var next := e.generation + 1;
            var after := generations[e.index := next];
            && alive > 0 && next < U32_MAX
            && Booked(after, if next != U32_MAX - 1 then frees + [e.index] else frees, alive - 1, issued)
            && forall other :: AliveIn(after, other) <==> AliveIn(generations, other) && other != e
  {
    hide Odds, IssuedOk, FreesOk;
    var next := e.generation + 1;
    OddsUpdate(generations, e.index, next);
    OddsPositive(generations, e.index);
    AddFree(generations, frees, e.index, next);
    NextIssued(generations, issued, e.index);
    NextAlive(generations, e.index);
  }
}
