/**
 Joins: the entities carrying every term, found by walking the shortest term and probing the
 others. A query is a join whose filters add nothing to the items.
 */
module Joins {
  import opened Wrappers
  import opened Entities
  import opened SparseSets

  const USIZE_MAX: nat := 0xffff_ffff_ffff_ffff

  /** A component's storage while it is borrowed; `id` names the component. */
  datatype Table = Table(id: nat, dense: seq<Entity>)

  datatype Term =
    | Read(table: Table)
    | Write(table: Table)
    | With(table: Table)
    | Without(table: Table)
    | Tuple(terms: seq<Term>)

  /** A component an item borrows: of which table, at which position. */
  datatype Cell = Cell(id: nat, position: nat)

  ghost predicate TableOk(table: Table) {
    DistinctIndexes(table.dense) && |table.dense| < USIZE_MAX
  }

  ghost predicate TermOk(term: Term) {
    match term
    case Tuple(terms) => terms != [] && forall i :: 0 <= i < |terms| ==> TermOk(terms[i])
    case _ => TableOk(term.table)
  }

  /** The terms naming one table hold the same one. */
  ghost predicate NamesTables(term: Term, tables: map<nat, Table>) {
    match term
    case Tuple(terms) => forall i :: 0 <= i < |terms| ==> NamesTables(terms[i], tables)
    case _ => term.table.id in tables && tables[term.table.id] == term.table
  }

  // ----- the terms

  function Len(term: Term): nat
    decreases term, 0
  {
    match term
    case Without(_) => USIZE_MAX
    case Tuple(terms) => if terms == [] then USIZE_MAX else LenTo(terms, |terms|)
    case _ => |term.table.dense|
  }

  /** The shortest of the first `n` terms. */
  function LenTo(terms: seq<Term>, n: nat): nat
    requires 0 < n <= |terms|
    decreases terms, n
  {
    if n == 1 then Len(terms[0])
    else if Len(terms[n - 1]) < LenTo(terms, n - 1) then Len(terms[n - 1])
    else LenTo(terms, n - 1)
  }

  /** The entities a term is walked by; `None` where asking for them panics. */
  function EntitiesOf(term: Term): Option<seq<Entity>>
    decreases term, 0
  {
    match term
    case Without(_) => None
    case Tuple(terms) => if terms == [] then None else EntitiesTo(terms, |terms|)
    case _ => Some(term.table.dense)
  }

  /** The first term is asked whether or not it is walked; each later one only when shorter than those before. */
  function EntitiesTo(terms: seq<Term>, n: nat): Option<seq<Entity>>
    requires 0 < n <= |terms|
    decreases terms, n
  {
    if n == 1 then EntitiesOf(terms[0])
    else if EntitiesTo(terms, n - 1).None? then None
    else if Len(terms[n - 1]) < LenTo(terms, n - 1) then EntitiesOf(terms[n - 1])
    else EntitiesTo(terms, n - 1)
  }

  /** Where an entity is stored. */
  function Position(dense: seq<Entity>, e: Entity): (k: Option<nat>)
    ensures k.Some? <==> e in dense
    ensures k.Some? ==> k.value < |dense| && dense[k.value] == e
  {
    if dense == [] then None
    else if dense[0] == e then Some(0)
    else
      var rest := Position(dense[1..], e);
      if rest.None? then None else Some(rest.value + 1)
  }

  /** What a term gives for an entity; filters give nothing. */
  function Get(term: Term, e: Entity): Option<seq<Cell>>
    decreases term, 0
  {
    match term
    case Read(table) => CellOf(table, e)
    case Write(table) => CellOf(table, e)
    case With(table) => if e in table.dense then Some([]) else None
    case Without(table) => if e in table.dense then None else Some([])
    case Tuple(terms) => GetTo(terms, e, |terms|)
  }

  function CellOf(table: Table, e: Entity): Option<seq<Cell>> {
    var k := Position(table.dense, e);
    if k.None? then None else Some([Cell(table.id, k.value)])
  }

  function GetTo(terms: seq<Term>, e: Entity, n: nat): Option<seq<Cell>>
    requires n <= |terms|
    decreases terms, n
  {
    if n == 0 then Some([])
    else
      var rest := GetTo(terms, e, n - 1);
      if rest.None? then None
      else
        var last := Get(terms[n - 1], e);
        if last.None? then None else Some(rest.value + last.value)
  }

  /** The entities a query asks for: those with every component read, written, or required, and none excluded. */
  predicate Carries(term: Term, e: Entity) {
    match term
    case Without(table) => e !in table.dense
    case Tuple(terms) => forall i :: 0 <= i < |terms| ==> Carries(terms[i], e)
    case _ => e in term.table.dense
  }

  lemma {:induction false} GetCarries(term: Term, e: Entity)
    ensures Get(term, e).Some? <==> Carries(term, e)
    decreases term, 0
  {
    if term.Tuple? {
      GetToCarries(term.terms, e, |term.terms|);
    }
  }

  lemma {:induction false} GetToCarries(terms: seq<Term>, e: Entity, n: nat)
    requires n <= |terms|
    ensures GetTo(terms, e, n).Some? <==> forall i :: 0 <= i < n ==> Carries(terms[i], e)
    decreases terms, n
  {
    if n > 0 {
      GetToCarries(terms, e, n - 1);
      GetCarries(terms[n - 1], e);
    }
  }

  // ----- whichever term is walked

  lemma {:induction false} IndexesDistinct(dense: seq<Entity>)
    requires DistinctIndexes(dense)
    ensures Distinct(dense)
  {
  }

  /** The term walked yields each entity once, and every entity the join asks for. */
  lemma {:induction false} WalkCovers(term: Term, e: Entity)
    requires TermOk(term) && EntitiesOf(term).Some?
    ensures Distinct(EntitiesOf(term).value)
    ensures Carries(term, e) ==> e in EntitiesOf(term).value
    decreases term, 0
  {
    if term.Tuple? {
      WalkToCovers(term.terms, e, |term.terms|);
    } else {
      IndexesDistinct(term.table.dense);
    }
  }

  lemma {:induction false} WalkToCovers(terms: seq<Term>, e: Entity, n: nat)
    requires (forall i :: 0 <= i < |terms| ==> TermOk(terms[i])) && 0 < n <= |terms| && EntitiesTo(terms, n).Some?
    ensures Distinct(EntitiesTo(terms, n).value)
    ensures (forall i :: 0 <= i < n ==> Carries(terms[i], e)) ==> e in EntitiesTo(terms, n).value
    decreases terms, n
  {
    if n == 1 {
      WalkCovers(terms[0], e);
    } else if Len(terms[n - 1]) < LenTo(terms, n - 1) {
      WalkCovers(terms[n - 1], e);
    } else {
      WalkToCovers(terms, e, n - 1);
    }
  }

  // ----- which table is walked

  /** The tables of a term from left to right, however tuples nest, each under what is asked of it. */
  function Leaves(term: Term): seq<Term>
    decreases term, 0
  {
    match term
    case Tuple(terms) => LeavesTo(terms, |terms|)
    case _ => [term]
  }

  function LeavesTo(terms: seq<Term>, n: nat): seq<Term>
    requires n <= |terms|
    decreases terms, n
  {
    if n == 0 then [] else LeavesTo(terms, n - 1) + Leaves(terms[n - 1])
  }

  /** No other is shorter, and those before are longer; a `Without` counts as longer than any table. */
  ghost predicate FirstShortest(leaves: seq<Term>, i: nat) {
    && i < |leaves|
    && (forall j :: 0 <= j < |leaves| ==> Len(leaves[i]) <= Len(leaves[j]))
    && (forall j :: 0 <= j < i ==> Len(leaves[i]) < Len(leaves[j]))
  }

  /** `es` are the entities of the first of the shortest tables. */
  ghost predicate Walked(term: Term, es: seq<Entity>) {
    exists i: nat :: FirstShortest(Leaves(term), i) && IsTable(Leaves(term)[i], es)
  }

  ghost predicate IsTable(leaf: Term, es: seq<Entity>) {
    !leaf.Tuple? && !leaf.Without? && leaf.table.dense == es
  }

  lemma {:induction false} FirstOfBoth(a: seq<Term>, i: nat, b: seq<Term>, j: nat)
    requires FirstShortest(a, i) && FirstShortest(b, j)
    ensures FirstShortest(a + b, if Len(b[j]) < Len(a[i]) then |a| + j else i)
  {
    hide Len;
    var all := a + b;
    forall k | 0 <= k < |all| ensures Len(all[k]) == if k < |a| then Len(a[k]) else Len(b[k - |a|]) {
    }
  }

  /** The table walked is the first of the shortest, and the term is as long as that. */
  lemma {:induction false} WalksShortest(term: Term) returns (i: nat)
    requires TermOk(term)
    ensures FirstShortest(Leaves(term), i) && Len(Leaves(term)[i]) == Len(term)
    ensures EntitiesOf(term).Some? ==> IsTable(Leaves(term)[i], EntitiesOf(term).value) && |EntitiesOf(term).value| == Len(term)
    decreases term, 0
  {
    if term.Tuple? {
      i := WalksShortestTo(term.terms, |term.terms|);
    } else {
      i := 0;
    }
  }

  lemma {:induction false} WalksShortestTo(terms: seq<Term>, n: nat) returns (i: nat)
    requires (forall k :: 0 <= k < |terms| ==> TermOk(terms[k])) && 0 < n <= |terms|
    ensures FirstShortest(LeavesTo(terms, n), i) && Len(LeavesTo(terms, n)[i]) == LenTo(terms, n)
    ensures EntitiesTo(terms, n).Some? ==> IsTable(LeavesTo(terms, n)[i], EntitiesTo(terms, n).value)
    decreases terms, n
  {
    var last := WalksShortest(terms[n - 1]);
    if n == 1 {
      assert LeavesTo(terms, 0) == [];
      assert LeavesTo(terms, 1) == Leaves(terms[0]);
      i := last;
    } else {
      var rest := WalksShortestTo(terms, n - 1);
      hide TermOk, FirstShortest, IsTable, Leaves, LeavesTo, EntitiesOf, Len;
      i := WalksStep(terms, n, rest, last);
    }
  }

  lemma {:induction false} WalksStep(terms: seq<Term>, n: nat, rest: nat, last: nat) returns (i: nat)
    requires 1 < n <= |terms|
    requires FirstShortest(LeavesTo(terms, n - 1), rest) && Len(LeavesTo(terms, n - 1)[rest]) == LenTo(terms, n - 1)
    requires EntitiesTo(terms, n - 1).Some? ==> IsTable(LeavesTo(terms, n - 1)[rest], EntitiesTo(terms, n - 1).value)
    requires FirstShortest(Leaves(terms[n - 1]), last) && Len(Leaves(terms[n - 1])[last]) == Len(terms[n - 1])
    requires EntitiesOf(terms[n - 1]).Some? ==> IsTable(Leaves(terms[n - 1])[last], EntitiesOf(terms[n - 1]).value)
    ensures FirstShortest(LeavesTo(terms, n), i) && Len(LeavesTo(terms, n)[i]) == LenTo(terms, n)
    ensures EntitiesTo(terms, n).Some? ==> IsTable(LeavesTo(terms, n)[i], EntitiesTo(terms, n).value)
  {
    var a, b := LeavesTo(terms, n - 1), Leaves(terms[n - 1]);
    FirstOfBoth(a, rest, b, last);
    hide FirstShortest, IsTable, Leaves, EntitiesOf, Len;
    i := if Len(b[last]) < Len(a[rest]) then |a| + last else rest;
    assert (a + b)[i] == if i < |a| then a[rest] else b[last];
  }

  lemma {:induction false} WalkedEntities(term: Term)
    requires TermOk(term) && EntitiesOf(term).Some?
    ensures Walked(term, EntitiesOf(term).value)
  {
    var i := WalksShortest(term);
  }

  // ----- when a join panics

  /** A term shorter than every one before it, so that it is asked for its entities. */
  predicate Asked(terms: seq<Term>, i: nat)
    requires i < |terms|
  {
    forall j :: 0 <= j < i ==> Len(terms[i]) < Len(terms[j])
  }

  /** A term that is asked, and panics. */
  predicate AskedPanics(terms: seq<Term>, i: nat)
    requires i < |terms|
  {
    Asked(terms, i) && EntitiesOf(terms[i]).None?
  }

  lemma {:induction false} LenToIsLeast(terms: seq<Term>, n: nat, x: nat)
    requires 0 < n <= |terms|
    ensures x < LenTo(terms, n) <==> forall j :: 0 <= j < n ==> x < Len(terms[j])
  {
    if n > 1 {
      LenToIsLeast(terms, n - 1, x);
    }
  }

  lemma {:induction false} AskedIs(terms: seq<Term>, i: nat)
    requires i < |terms|
    ensures Asked(terms, i) <==> i == 0 || Len(terms[i]) < LenTo(terms, i)
  {
    if i > 0 {
      LenToIsLeast(terms, i, Len(terms[i]));
    }
  }

  lemma {:induction false} PanicStep(terms: seq<Term>, n: nat)
    requires 0 < n <= |terms|
    ensures n == 1 ==> (EntitiesTo(terms, n).None? <==> AskedPanics(terms, 0))
    ensures n > 1 ==>
              (EntitiesTo(terms, n).None? <==>
                 EntitiesTo(terms, n - 1).None? || AskedPanics(terms, n - 1))
  {
    AskedIs(terms, n - 1);
    hide Len, EntitiesOf, LenTo;
  }

  /** A tuple panics exactly when a term that is asked does. */
  lemma {:induction false} TuplePanics(terms: seq<Term>, n: nat)
    requires 0 < n <= |terms|
    ensures EntitiesTo(terms, n).None? <==> exists i :: 0 <= i < n && AskedPanics(terms, i)
    decreases n
  {
    PanicStep(terms, n);
    hide AskedPanics, EntitiesTo;
    if n > 1 {
      TuplePanics(terms, n - 1);
    }
  }

  /** No term of the join is a tuple itself. */
  predicate Flat(terms: seq<Term>) {
    forall i :: 0 <= i < |terms| ==> !terms[i].Tuple?
  }

  /** A join of terms none of which is a tuple panics exactly when the first is `Without`. */
  lemma {:induction false} FlatPanics(terms: seq<Term>)
    requires terms != [] && Flat(terms) && TermOk(Tuple(terms))
    ensures EntitiesOf(Tuple(terms)).None? <==> terms[0].Without?
  {
    TuplePanics(terms, |terms|);
    assert AskedPanics(terms, 0) <==> terms[0].Without?;
    forall i | 0 < i < |terms| && terms[i].Without? ensures !Asked(terms, i) {
      assert Len(terms[0]) <= USIZE_MAX;
    }
  }

  /** A `Without` is asked for its entities: in a tuple, through a chain of terms each asked by the one around it. */
  predicate AsksWithout(term: Term) {
    match term
    case Without(_) => true
    case Tuple(terms) => exists i :: 0 <= i < |terms| && Asked(terms, i) && AsksWithout(terms[i])
    case _ => false
  }

  /** However tuples nest, a join panics exactly when a `Without` is asked. */
  lemma {:induction false} PanicsExactly(term: Term)
    requires TermOk(term)
    ensures EntitiesOf(term).None? <==> AsksWithout(term)
  {
    if term.Tuple? {
      var terms := term.terms;
      TuplePanics(terms, |terms|);
      forall i | 0 <= i < |terms| ensures AskedPanics(terms, i) <==> Asked(terms, i) && AsksWithout(terms[i]) {
        PanicsExactly(terms[i]);
      }
      hide AskedPanics, Asked;
      if EntitiesOf(term).None? {
        var i :| 0 <= i < |terms| && AskedPanics(terms, i);
        assert Asked(terms, i) && AsksWithout(terms[i]);
      }
    }
  }

  // ----- queries that never panic

  /** Nothing but `Without`s, so never shorter than another term. */
  predicate OnlyExcludes(term: Term) {
    match term
    case Without(_) => true
    case Tuple(terms) => forall i :: 0 <= i < |terms| ==> OnlyExcludes(terms[i])
    case _ => false
  }

  /** Each tuple begins with a term that can be walked, and its other terms can be or only exclude. */
  predicate Walkable(term: Term) {
    match term
    case Without(_) => false
    case Tuple(terms) =>
      terms != [] && Walkable(terms[0]) && forall i :: 0 < i < |terms| ==> OnlyExcludes(terms[i]) || Walkable(terms[i])
    case _ => true
  }

  lemma {:induction false} ExcludesLast(term: Term)
    requires OnlyExcludes(term)
    ensures Len(term) == USIZE_MAX
  {
    if term.Tuple? && term.terms != [] {
      forall i | 0 <= i < |term.terms| ensures Len(term.terms[i]) == USIZE_MAX {
        ExcludesLast(term.terms[i]);
      }
      LenToIsLeast(term.terms, |term.terms|, USIZE_MAX - 1);
      LenToIsLeast(term.terms, |term.terms|, USIZE_MAX);
    }
  }

  /** A walkable join never panics, whatever its tables hold. */
  lemma {:induction false} WalkableNeverPanics(term: Term)
    requires TermOk(term) && Walkable(term)
    ensures EntitiesOf(term).Some? && Len(term) < USIZE_MAX
  {
    if term.Tuple? {
      var terms := term.terms;
      WalkableNeverPanics(terms[0]);
      TuplePanics(terms, |terms|);
      LenToIsLeast(terms, |terms|, Len(terms[0]));
      forall i | 0 <= i < |terms| && Asked(terms, i) ensures EntitiesOf(terms[i]).Some? {
        if i > 0 {
          assert Len(terms[i]) < Len(terms[0]);
          if OnlyExcludes(terms[i]) {
            ExcludesLast(terms[i]);
          } else {
            WalkableNeverPanics(terms[i]);
          }
        }
      }
    }
  }

  /** The components a term names. */
  function Ids(term: Term): set<nat>
    decreases term, 0
  {
    match term
    case Tuple(terms) => IdsTo(terms, |terms|)
    case _ => {term.table.id}
  }

  function IdsTo(terms: seq<Term>, n: nat): set<nat>
    requires n <= |terms|
    decreases terms, n
  {
    if n == 0 then {} else IdsTo(terms, n - 1) + Ids(terms[n - 1])
  }

  /** No component is named twice. */
  ghost predicate NamedOnce(term: Term) {
    term.Tuple? ==>
      && (forall i :: 0 <= i < |term.terms| ==> NamedOnce(term.terms[i]))
      && forall i, j :: 0 <= i < j < |term.terms| ==> Ids(term.terms[i]) !! Ids(term.terms[j])
  }

  /** The same query over other tables: those of `empty` without an entity, the others with one. */
  function Fill(term: Term, empty: set<nat>): Term {
    match term
    case Read(table) => Read(FillTable(table.id, empty))
    case Write(table) => Write(FillTable(table.id, empty))
    case With(table) => With(FillTable(table.id, empty))
    case Without(table) => Without(FillTable(table.id, empty))
    case Tuple(terms) => Tuple(seq(|terms|, i requires 0 <= i < |terms| => Fill(terms[i], empty)))
  }

  function FillTable(id: nat, empty: set<nat>): Table {
    Table(id, if id in empty then [] else [Entity(0, 1)])
  }

  lemma {:induction false} FillOk(term: Term, empty: set<nat>)
    requires TermOk(term)
    ensures TermOk(Fill(term, empty)) && (Walkable(term) ==> Walkable(Fill(term, empty)))
    ensures OnlyExcludes(term) ==> OnlyExcludes(Fill(term, empty))
  {
    if term.Tuple? {
      forall i | 0 <= i < |term.terms|
        ensures var t := Fill(term.terms[i], empty);
                TermOk(t) && (Walkable(term.terms[i]) ==> Walkable(t)) && (OnlyExcludes(term.terms[i]) ==> OnlyExcludes(t))
      {
        FillOk(term.terms[i], empty);
      }
    }
  }

  lemma {:induction false} IdsWithin(terms: seq<Term>, n: nat, i: nat)
    requires i < n <= |terms|
    ensures Ids(terms[i]) <= IdsTo(terms, n)
  {
    if i < n - 1 {
      IdsWithin(terms, n - 1, i);
    }
  }

  lemma {:induction false} ZeroLen(terms: seq<Term>, i: nat)
    requires i < |terms| && Len(terms[i]) == 0
    ensures Len(Tuple(terms)) == 0
  {
    LenToIsLeast(terms, |terms|, 0);
  }

  /** With every table empty, whatever can be walked has length 0. */
  lemma {:induction false} EmptyLen(term: Term, empty: set<nat>)
    requires TermOk(term) && !OnlyExcludes(term) && Ids(term) <= empty
    ensures Len(Fill(term, empty)) == 0
  {
    if term.Tuple? {
      var terms, filled := term.terms, Fill(term, empty).terms;
      var i :| 0 <= i < |terms| && !OnlyExcludes(terms[i]);
      IdsWithin(terms, |terms|, i);
      EmptyLen(terms[i], empty);
      ZeroLen(filled, i);
    }
  }

  lemma {:induction false} FilledLen(term: Term, empty: set<nat>)
    requires TermOk(term) && Ids(term) !! empty
    ensures Len(Fill(term, empty)) > 0
  {
    if term.Tuple? {
      var terms, filled := term.terms, Fill(term, empty).terms;
      forall i | 0 <= i < |terms| ensures Len(filled[i]) > 0 {
        IdsWithin(terms, |terms|, i);
        FilledLen(terms[i], empty);
      }
      LenToIsLeast(filled, |filled|, 0);
    }
  }

  /** Tables over which a query that is not walkable panics, with nothing to walk if it can be walked at all. */
  lemma {:induction false} Unwalkable(term: Term) returns (empty: set<nat>)
    requires TermOk(term) && NamedOnce(term) && !Walkable(term)
    ensures empty <= Ids(term) && EntitiesOf(Fill(term, empty)).None?
    ensures !OnlyExcludes(term) ==> Len(Fill(term, empty)) == 0
    decreases term
  {
    hide Len, EntitiesOf, LenTo, EntitiesTo;
    empty := {};
    if term.Tuple? {
      var terms := term.terms;
      if OnlyExcludes(terms[0]) {
        empty := Ids(term);
        FillOk(terms[0], empty);
        var filled := Fill(term, empty).terms;
        ExcludesPanic(filled[0]);
        OnePanics(filled, 0);
        if !OnlyExcludes(term) {
          EmptyLen(term, empty);
        }
      } else {
        var i :| 0 <= i < |terms| && !OnlyExcludes(terms[i]) && !Walkable(terms[i]);
        empty := Unwalkable(terms[i]);
        IdsWithin(terms, |terms|, i);
        var filled := Fill(term, empty).terms;
        forall j | 0 <= j < i ensures Len(filled[j]) > 0 {
          assert Ids(terms[j]) !! Ids(terms[i]);
          FilledLen(terms[j], empty);
        }
        OnePanics(filled, i);
        ZeroLen(filled, i);
      }
    } else {
      ExcludesPanic(Fill(term, empty));
    }
  }

  lemma {:induction false} OnePanics(terms: seq<Term>, i: nat)
    requires i < |terms| && AskedPanics(terms, i)
    ensures EntitiesOf(Tuple(terms)).None?
  {
    TuplePanics(terms, |terms|);
  }

  lemma {:induction false} ExcludesPanic(term: Term)
    requires TermOk(term) && OnlyExcludes(term)
    ensures EntitiesOf(term).None?
  {
    if term.Tuple? {
      ExcludesPanic(term.terms[0]);
      OnePanics(term.terms, 0);
    }
  }

  /** A query naming no component twice panics over no tables exactly when it is walkable. */
  lemma {:induction false} NeverPanicsExactly(term: Term)
    requires TermOk(term) && NamedOnce(term)
    ensures Walkable(term) <==> forall empty: set<nat> :: EntitiesOf(Fill(term, empty)).Some?
  {
    if Walkable(term) {
      forall empty: set<nat> ensures EntitiesOf(Fill(term, empty)).Some? {
        FillOk(term, empty);
        WalkableNeverPanics(Fill(term, empty));
      }
    } else {
      var empty := Unwalkable(term);
    }
  }

  /**
   A query of `A` and the filters `(Without<B>, With<C>)` has terms that can be walked, yet panics
   once fewer entities have `C` than `A`: the filters' tuple is asked, and asks its first.
   */
  lemma {:induction false} NestedFilterPanics(a: Table, b: Table, c: Table)
    requires TableOk(a) && TableOk(b) && TableOk(c)
    ensures EntitiesOf(Tuple([Read(a), Tuple([Without(b), With(c)])])).None? <==> |c.dense| < |a.dense|
  {
    var inner := [Without(b), With(c)];
    var filters := Tuple(inner);
    var outer := [Read(a), filters];
    assert LenTo(inner, 1) == USIZE_MAX && LenTo(inner, 2) == |c.dense|;
    assert EntitiesTo(inner, 1).None? && EntitiesTo(inner, 2).None?;
    assert Len(filters) == |c.dense| && EntitiesOf(filters).None?;
    assert LenTo(outer, 1) == |a.dense| && EntitiesTo(outer, 1) == Some(a.dense);
    assert outer[1] == filters && EntitiesOf(Tuple(outer)) == EntitiesTo(outer, 2);
    assert EntitiesTo(outer, 2) == if Len(filters) < LenTo(outer, 1) then EntitiesOf(filters) else EntitiesTo(outer, 1);
  }

  // ----- no cell is handed out twice

  /** The cells two entities are given are different, so mutable terms never alias. */
  lemma {:induction false} CellsApart(term: Term, tables: map<nat, Table>, d: Entity, e: Entity)
    requires NamesTables(term, tables) && d != e && Get(term, d).Some? && Get(term, e).Some?
    ensures forall cell :: cell in Get(term, d).value ==> cell !in Get(term, e).value
  {
    forall cell | cell in Get(term, d).value ensures cell !in Get(term, e).value {
      CellHolds(term, tables, d, cell);
      if cell in Get(term, e).value {
        CellHolds(term, tables, e, cell);
        assert false;
      }
    }
  }

  /** A cell given for an entity is where its table stores it. */
  lemma {:induction false} CellHolds(term: Term, tables: map<nat, Table>, e: Entity, cell: Cell)
    requires NamesTables(term, tables) && Get(term, e).Some? && cell in Get(term, e).value
    ensures cell.id in tables && cell.position < |tables[cell.id].dense| && tables[cell.id].dense[cell.position] == e
    decreases term, 0
  {
    if term.Tuple? {
      CellToHolds(term.terms, tables, e, cell, |term.terms|);
    }
  }

  lemma {:induction false} CellToHolds(terms: seq<Term>, tables: map<nat, Table>, e: Entity, cell: Cell, n: nat)
    requires (forall i :: 0 <= i < |terms| ==> NamesTables(terms[i], tables)) && n <= |terms|
    requires GetTo(terms, e, n).Some? && cell in GetTo(terms, e, n).value
    ensures cell.id in tables && cell.position < |tables[cell.id].dense| && tables[cell.id].dense[cell.position] == e
    decreases terms, n
  {
    if cell in Get(terms[n - 1], e).value {
      CellHolds(terms[n - 1], tables, e, cell);
    } else {
      CellToHolds(terms, tables, e, cell, n - 1);
    }
  }

  /** The components read and written, in the order an item gives them, and whether each is written. */
  function Data(term: Term): seq<(nat, bool)>
    decreases term, 0
  {
    match term
    case Read(table) => [(table.id, false)]
    case Write(table) => [(table.id, true)]
    case Tuple(terms) => DataTo(terms, |terms|)
    case _ => []
  }

  function DataTo(terms: seq<Term>, n: nat): seq<(nat, bool)>
    requires n <= |terms|
    decreases terms, n
  {
    if n == 0 then [] else DataTo(terms, n - 1) + Data(terms[n - 1])
  }

  /** A table that is written is borrowed by no other term, as checking the query out sees to. */
  predicate Exclusive(data: seq<(nat, bool)>) {
    forall j, k :: 0 <= j < |data| && 0 <= k < |data| && j != k && data[j].1 ==> data[j].0 != data[k].0
  }

  predicate Aligned(cells: seq<Cell>, data: seq<(nat, bool)>) {
    |cells| == |data| && forall k :: 0 <= k < |cells| ==> cells[k].id == data[k].0
  }

  lemma {:induction false} ItemAligned(term: Term, e: Entity)
    requires Get(term, e).Some?
    ensures Aligned(Get(term, e).value, Data(term))
    decreases term, 0
  {
    if term.Tuple? {
      ItemToAligned(term.terms, e, |term.terms|);
    }
  }

  lemma {:induction false} AlignedJoin(a: seq<Cell>, x: seq<(nat, bool)>, b: seq<Cell>, y: seq<(nat, bool)>)
    requires Aligned(a, x) && Aligned(b, y)
    ensures Aligned(a + b, x + y)
  {
  }

  lemma {:induction false} ItemToAligned(terms: seq<Term>, e: Entity, n: nat)
    requires n <= |terms| && GetTo(terms, e, n).Some?
    ensures Aligned(GetTo(terms, e, n).value, DataTo(terms, n))
    decreases terms, n
  {
    if n > 0 {
      ItemToAligned(terms, e, n - 1);
      ItemAligned(terms[n - 1], e);
      hide Aligned, Get, Data;
      AlignedJoin(GetTo(terms, e, n - 1).value, DataTo(terms, n - 1), Get(terms[n - 1], e).value, Data(terms[n - 1]));
    }
  }

  /** Within one item, a component that may be written is handed out by one term only. */
  lemma {:induction false} WrittenOnce(term: Term, e: Entity, j: nat, k: nat)
    requires Get(term, e).Some? && Exclusive(Data(term))
    requires j < |Data(term)| && k < |Data(term)| && j != k && Data(term)[j].1
    ensures var cells := Get(term, e).value; |cells| == |Data(term)| && cells[j] != cells[k]
  {
    ItemAligned(term, e);
  }

  // ----- the tables are the storage's

  /** A set's packed entities are such a table, and hold an entity where probing the set finds it. */
  lemma {:induction false} SetTable<T>(set_: SparseSet<T>, id: nat, e: Entity)
    requires set_.Valid()
    ensures var table := Table(id, set_.dense);
            && TableOk(table)
            && (Position(table.dense, e).Some? <==> e.index in set_.Held() && set_.Held()[e.index].0 == e)
            && (Position(table.dense, e).Some? ==> set_.Held()[e.index].1 == set_.data[Position(table.dense, e).value])
  {
    hide ContentsOf;
    var dense, data := set_.dense, set_.data;
    if dense != [] {
      set_.sparse.EntrySmall(dense[|dense| - 1].index);
    }
    if e.index in set_.Held() && set_.Held()[e.index].0 == e {
      var k := HeldFrom(dense, data, e.index);
      HeldAt(dense, data, k);
    }
    var at := Position(dense, e);
    if at.Some? {
      HeldAt(dense, data, at.value);
    }
  }

  /** Probing a set gives the position its table has for the entity. */
  method Probe<T>(set_: SparseSet<T>, id: nat, e: Entity) returns (at: Option<nat>)
    requires set_.Valid()
    ensures at == Position(Table(id, set_.dense).dense, e)
  {
    at := set_.IndexOf(e);
    SetTable(set_, id, e);
  }

  // ----- iteration

  /** Those of `es` the join yields. */
  function Yielded(terms: Term, es: seq<Entity>): seq<Entity> {
    if es == [] then []
    else (if Get(terms, es[0]).Some? then [es[0]] else []) + Yielded(terms, es[1..])
  }

  lemma {:induction false} YieldedIn(terms: Term, es: seq<Entity>, e: Entity)
    ensures e in Yielded(terms, es) <==> e in es && Carries(terms, e)
  {
    if es != [] {
      YieldedIn(terms, es[1..], e);
      GetCarries(terms, es[0]);
    }
  }

  lemma {:induction false} YieldedDistinct(terms: Term, es: seq<Entity>)
    requires Distinct(es)
    ensures Distinct(Yielded(terms, es))
  {
    if es != [] {
      assert forall j, k :: 0 <= j < k < |es[1..]| ==> es[1..][j] == es[j + 1] && es[1..][k] == es[k + 1];
      YieldedDistinct(terms, es[1..]);
      YieldedIn(terms, es[1..], es[0]);
      var rest := Yielded(terms, es[1..]);
      assert es[0] !in es[1..];
      if Get(terms, es[0]).Some? {
        assert Yielded(terms, es) == [es[0]] + rest;
        forall k | 0 <= k < |rest| ensures rest[k] != es[0] {
          assert rest[k] in rest;
        }
      } else {
        assert Yielded(terms, es) == rest;
      }
    }
  }

  /** `d` is somewhere before `e`. */
  ghost predicate Before(es: seq<Entity>, d: Entity, e: Entity) {
    exists p, q :: 0 <= p < q < |es| && es[p] == d && es[q] == e
  }

  /** What is yielded keeps the order it is walked in. */
  lemma {:induction false} YieldedOrder(terms: Term, es: seq<Entity>, j: nat, k: nat)
    requires j < k < |Yielded(terms, es)|
    ensures Before(es, Yielded(terms, es)[j], Yielded(terms, es)[k])
  {
    hide Get, Carries;
    var rest := Yielded(terms, es[1..]);
    assert Yielded(terms, es) == (if Get(terms, es[0]).Some? then [es[0]] else []) + rest;
    hide Yielded;
    var drop := if Get(terms, es[0]).Some? then 1 else 0;
    var d, e := Yielded(terms, es)[j], Yielded(terms, es)[k];
    assert e == rest[k - drop] && e in rest;
    if j < drop {
      YieldedIn(terms, es[1..], e);
      var q :| 0 <= q < |es[1..]| && es[1..][q] == e;
      assert es[0] == d && es[q + 1] == e;
    } else {
      YieldedOrder(terms, es[1..], j - drop, k - drop);
      var p, q :| 0 <= p < q < |es[1..]| && es[1..][p] == d && es[1..][q] == e;
      assert es[p + 1] == d && es[q + 1] == e;
    }
  }

  class Join {
    const terms: Term
    var entities: seq<Entity>

    ghost function Left(): seq<Entity>
      reads this
    {
      Yielded(terms, entities)
    }

    /** `join`; asking the terms for their entities does not panic. */
    constructor (terms: Term)
      requires EntitiesOf(terms).Some?
      ensures this.terms == terms && entities == EntitiesOf(terms).value
      ensures TermOk(terms) ==> Walked(terms, entities)
    {
      this.terms := terms;
      this.entities := EntitiesOf(terms).value;
      new;
      if TermOk(terms) {
        WalkedEntities(terms);
      }
    }

    method Next() returns (item: Option<(Entity, seq<Cell>)>)
      modifies this
      ensures old(Left()) == [] ==> item.None? && Left() == []
      ensures old(Left()) != [] ==>
                && item.Some? && item.value.0 == old(Left())[0] && Get(terms, item.value.0) == Some(item.value.1)
                && Left() == old(Left())[1..]
    {
      while entities != []
        invariant Left() == old(Left())
        decreases |entities|
      {
        var e := entities[0];
        entities := entities[1..];
        var cells := Get(terms, e);
        if cells.Some? {
          return Some((e, cells.value));
        }
      }
      return None;
    }
  }

  /**
   Iterating a join yields exactly the entities it asks for, each once, with what its terms give,
   and no component twice, whichever term is walked; they come in the order of the first of the
   shortest tables.
   */
  method Collect(terms: Term, ghost tables: map<nat, Table>) returns (items: seq<(Entity, seq<Cell>)>, ghost walked: seq<Entity>)
    requires TermOk(terms) && EntitiesOf(terms).Some? && NamesTables(terms, tables)
    ensures forall e :: Carries(terms, e) <==> exists k :: 0 <= k < |items| && items[k].0 == e
    ensures forall k :: 0 <= k < |items| ==> Get(terms, items[k].0) == Some(items[k].1)
    ensures forall j, k :: 0 <= j < k < |items| ==> items[j].0 != items[k].0
    ensures forall j, k :: 0 <= j < k < |items| ==> forall cell :: cell in items[j].1 ==> cell !in items[k].1
    ensures Walked(terms, walked) && Distinct(walked) && forall k :: 0 <= k < |items| ==> items[k].0 in walked
    ensures forall j, k :: 0 <= j < k < |items| ==> Before(walked, items[j].0, items[k].0)
  {
    hide Carries, Get, EntitiesOf, Yielded, NamesTables, TermOk, Walked;
    var join := new Join(terms);
    walked := join.entities;
    ghost var all := join.Left();
    items := [];
    var item := join.Next();
    while item.Some?
      invariant |items| <= |all| && fresh(join) && join.terms == terms
      invariant forall k :: 0 <= k < |items| ==> items[k].0 == all[k] && Get(terms, items[k].0) == Some(items[k].1)
      invariant if item.Some? then |items| < |all| && item.value.0 == all[|items|] && Get(terms, item.value.0) == Some(item.value.1)
                                   && join.Left() == all[|items| + 1..]
                else |items| == |all|
      decreases |all| - |items|, item.Some?
    {
      items := items + [item.value];
      item := join.Next();
    }
    AllYielded(terms, all);
    forall j, k | 0 <= j < k < |items| ensures items[j].0 != items[k].0 && Before(walked, items[j].0, items[k].0) {
      assert all[j] != all[k];
      YieldedOrder(terms, walked, j, k);
    }
    forall k | 0 <= k < |items| ensures items[k].0 in walked {
      assert all[k] in all;
      YieldedIn(terms, walked, all[k]);
    }
    forall j, k | 0 <= j < k < |items| ensures forall cell :: cell in items[j].1 ==> cell !in items[k].1 {
      CellsApart(terms, tables, items[j].0, items[k].0);
    }
    forall e ensures Carries(terms, e) <==> exists k :: 0 <= k < |items| && items[k].0 == e {
      if Carries(terms, e) {
        assert e in all;
        var k :| 0 <= k < |all| && all[k] == e;
        assert items[k].0 == e;
      }
    }
  }

  lemma {:induction false} AllYielded(terms: Term, all: seq<Entity>)
    requires TermOk(terms) && EntitiesOf(terms).Some? && all == Yielded(terms, EntitiesOf(terms).value)
    ensures Distinct(all) && forall e :: e in all <==> Carries(terms, e)
    ensures Distinct(EntitiesOf(terms).value)
  {
    hide Carries, EntitiesOf, Yielded, TermOk;
    var es := EntitiesOf(terms).value;
    forall e ensures e in all <==> Carries(terms, e) {
      WalkCovers(terms, e);
      YieldedIn(terms, es, e);
    }
    WalkCovers(terms, Entity(0, 1));
    YieldedDistinct(terms, es);
  }
}
