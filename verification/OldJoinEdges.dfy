/**
 The edges over which a new variable is joined in the older join, column by column, and what they allow
 beside a row, said in terms of the stored triples.
 */
module OldJoinEdges {
  import opened Rdf
  import opened TableOperator
  import opened Semantics
  import opened StepSpec
  import opened BasicGraphPattern
  import opened PlanTreeBuilder

  // ---- the edges of one column ----

  /** The edges of a column to the new variable whose predicate is a constant. */
  function ConstantPredicateEdges(bgp: Patterns, es: seq<SoEdge>): seq<Edge>
    requires forall e :: e in es ==> e.index < |bgp|
  {
    if es == [] then [] else
      var last := es[|es| - 1];
      assert last in es;
      ConstantPredicateEdges(bgp, es[..|es| - 1]) + (if bgp[last.index].pConst then [EntryEdge(bgp, last)] else [])
  }

  /** The first edge in the given direction. */
  function FirstEdge(bgp: Patterns, es: seq<SoEdge>, edgeIn: bool): seq<Edge>
    requires forall e :: e in es ==> e.index < |bgp|
  {
    if es == [] then [] else
      assert es[0] in es;
      if es[0].edgeIn == edgeIn then [EdgeFor(bgp[es[0].index], if edgeIn then S2O else O2S)] else FirstEdge(bgp, es[1..], edgeIn)
  }

  /** Predicate variables are looked up without their predicate, and only if no parallel edge has a constant one. */
  function ColumnEdges(bgp: Patterns, es: seq<SoEdge>): seq<Edge>
    requires forall e :: e in es ==> e.index < |bgp|
  {
    var constant := ConstantPredicateEdges(bgp, es);
    if constant != [] then constant else FirstEdge(bgp, es, true) + FirstEdge(bgp, es, false)
  }

  ghost predicate ColumnsOk(bgp: Patterns, columns: seq<seq<SoEdge>>) {
    forall i, e :: 0 <= i < |columns| && e in columns[i] ==> e.index < |bgp|
  }

  ghost function FlatEdges(bgp: Patterns, columns: seq<seq<SoEdge>>): seq<Edge>
    requires ColumnsOk(bgp, columns)
  {
    if columns == [] then [] else FlatEdges(bgp, columns[..|columns| - 1]) + ColumnEdges(bgp, columns[|columns| - 1])
  }

  lemma {:induction false} FlatPrefix(bgp: Patterns, columns: seq<seq<SoEdge>>, n: nat)
    requires ColumnsOk(bgp, columns) && n <= |columns|
    ensures ColumnsOk(bgp, columns[..n])
    ensures forall e :: e in FlatEdges(bgp, columns[..n]) ==> e in FlatEdges(bgp, columns)
    decreases |columns|
  {
    if n < |columns| {
      FlatPrefix(bgp, columns[..|columns| - 1], n);
      assert columns[..|columns| - 1][..n] == columns[..n];
    } else {
      assert columns[..n] == columns;
    }
  }

  lemma FlatSnoc(bgp: Patterns, columns: seq<seq<SoEdge>>, n: nat)
    requires ColumnsOk(bgp, columns) && n < |columns|
    ensures ColumnsOk(bgp, columns[..n]) && ColumnsOk(bgp, columns[..n + 1])
    ensures forall e :: e in columns[n] ==> e.index < |bgp|
    ensures FlatEdges(bgp, columns[..n + 1]) == FlatEdges(bgp, columns[..n]) + ColumnEdges(bgp, columns[n])
  {
    assert columns[..n + 1][..n] == columns[..n];
  }

  // ---- what a column allows ----

  /** A stored triple with the given predicate lies between a value of the row and the new id, in the entry's direction. */
  predicate StoredBetween(g: Store, e: SoEdge, value: nat, p: nat, x: nat) {
    (if e.edgeIn then Triple(value, p, x) else Triple(x, p, value)) in g
  }

  ghost predicate SomeBetween(g: Store, e: SoEdge, value: nat, x: nat) {
    exists p :: StoredBetween(g, e, value, p, x)
  }

  /**
   What the entries of one column ask of an id: if some have constant predicates, those must all be stored;
   if all predicates are variables, each direction that occurs must be stored under some predicate.
   */
  ghost predicate ColumnAllows(g: Store, bgp: Patterns, es: seq<SoEdge>, value: nat, x: nat)
    requires forall e :: e in es ==> e.index < |bgp|
  {
    if exists e :: e in es && bgp[e.index].pConst
    then forall e :: e in es && bgp[e.index].pConst ==> StoredBetween(g, e, value, bgp[e.index].p, x)
    else forall e :: e in es ==> SomeBetween(g, e, value, x)
  }

  /** The ids allowed beside a row: candidates of the variable that every column with entries allows. */
  ghost predicate RowAllows(env: Env, bgp: Patterns, columns: seq<seq<SoEdge>>, id: nat, row: Row, x: nat)
    requires ColumnsOk(bgp, columns) && |columns| <= |row|
  {
    && (id in env.caches ==> x in env.caches[id])
    && forall c :: 0 <= c < |columns| && columns[c] != [] ==> ColumnAllows(env.g, bgp, columns[c], row[c], x)
  }

  /** The entries of a column are edges between the new variable and the variable of the column. */
  ghost predicate EntriesAt(bgp: Patterns, es: seq<SoEdge>, id: nat, idPos: PositionValue, c: nat) {
    forall e :: e in es ==> e.index < |bgp| && e in SoEdges(bgp, id) && !e.neiConst && e.nei in idPos && idPos[e.nei] == c
  }

  ghost predicate ColumnEntries(bgp: Patterns, columns: seq<seq<SoEdge>>, id: nat, idPos: PositionValue) {
    forall c :: 0 <= c < |columns| ==> EntriesAt(bgp, columns[c], id, idPos, c)
  }

  lemma {:induction false} InConstants(bgp: Patterns, es: seq<SoEdge>, x: Edge)
    requires forall e :: e in es ==> e.index < |bgp|
    ensures x in ConstantPredicateEdges(bgp, es) <==> exists e :: e in es && bgp[e.index].pConst && EntryEdge(bgp, e) == x
  {
    if es != [] {
      var init, last := es[..|es| - 1], es[|es| - 1];
      assert es == init + [last];
      InConstants(bgp, init, x);
    }
  }

  /** The first edge of a direction, if there is one. */
  lemma {:induction false} FirstEdgeIs(bgp: Patterns, es: seq<SoEdge>, edgeIn: bool)
    requires forall e :: e in es ==> e.index < |bgp|
    ensures FirstEdge(bgp, es, edgeIn) == [] <==> forall e :: e in es ==> e.edgeIn != edgeIn
    ensures FirstEdge(bgp, es, edgeIn) != [] ==>
              exists e :: e in es && e.edgeIn == edgeIn && FirstEdge(bgp, es, edgeIn) == [EdgeFor(bgp[e.index], if edgeIn then S2O else O2S)]
  {
    if es != [] {
      assert es[0] in es && es == [es[0]] + es[1..];
      if es[0].edgeIn != edgeIn {
        FirstEdgeIs(bgp, es[1..], edgeIn);
      }
    }
  }

  /** An entry with a constant predicate lists what is stored with it. */
  lemma ConstantEntryLists(g: Store, bgp: Patterns, e: SoEdge, id: nat, idPos: PositionValue, row: Row, x: nat)
    requires e.index < |bgp| && e in SoEdges(bgp, id) && !e.neiConst && e.nei in idPos && idPos[e.nei] < |row| && bgp[e.index].pConst
    ensures EntryEdge(bgp, e).info.joinMethod.OneNode() && Readable(EntryEdge(bgp, e), idPos, row)
    ensures x in EdgeList(g, EntryEdge(bgp, e), idPos, row) <==> StoredBetween(g, e, row[idPos[e.nei]], bgp[e.index].p, x)
  {
    InSoEdges(bgp, id, e);
  }

  /** An edge without its predicate lists what is stored under any. */
  lemma VariableEntryLists(g: Store, bgp: Patterns, e: SoEdge, id: nat, idPos: PositionValue, row: Row, x: nat)
    requires e.index < |bgp| && e in SoEdges(bgp, id) && !e.neiConst && e.nei in idPos && idPos[e.nei] < |row|
    ensures var edge := EdgeFor(bgp[e.index], if e.edgeIn then S2O else O2S);
            && edge.info.joinMethod.OneNode() && Readable(edge, idPos, row)
            && (x in EdgeList(g, edge, idPos, row) <==> SomeBetween(g, e, row[idPos[e.nei]], x))
  {
    InSoEdges(bgp, id, e);
    var value := row[idPos[e.nei]];
    if e.edgeIn {
      BetweenFrom(g, e, value, x);
    } else {
      BetweenTo(g, e, value, x);
    }
  }

  lemma BetweenFrom(g: Store, e: SoEdge, value: nat, x: nat)
    requires e.edgeIn
    ensures x in ObjIdsBySub(g, value) <==> SomeBetween(g, e, value, x)
  {
    if x in ObjIdsBySub(g, value) {
      var t :| t in g && t.s == value && t.o == x;
      assert StoredBetween(g, e, value, t.p, x);
    }
    if SomeBetween(g, e, value, x) {
      var p :| StoredBetween(g, e, value, p, x);
    }
  }

  lemma BetweenTo(g: Store, e: SoEdge, value: nat, x: nat)
    requires !e.edgeIn
    ensures x in SubIdsByObj(g, value) <==> SomeBetween(g, e, value, x)
  {
    if x in SubIdsByObj(g, value) {
      var t :| t in g && t.o == value && t.s == x;
      assert StoredBetween(g, e, value, t.p, x);
    }
    if SomeBetween(g, e, value, x) {
      var p :| StoredBetween(g, e, value, p, x);
    }
  }

  lemma SameDirection(g: Store, e: SoEdge, f: SoEdge, value: nat, x: nat)
    requires e.edgeIn == f.edgeIn
    ensures SomeBetween(g, e, value, x) <==> SomeBetween(g, f, value, x)
  {
    forall p ensures StoredBetween(g, e, value, p, x) <==> StoredBetween(g, f, value, p, x) {
    }
  }

  /** The lists of one direction allow what its entries allow. */
  lemma DirectionLists(g: Store, bgp: Patterns, es: seq<SoEdge>, id: nat, idPos: PositionValue, row: Row, c: nat, edgeIn: bool, x: nat)
    requires (forall e :: e in es ==> e.index < |bgp|) && EntriesAt(bgp, es, id, idPos, c) && c < |row|
    ensures AllReadable(FirstEdge(bgp, es, edgeIn), idPos, row)
    ensures OnAllLists(g, FirstEdge(bgp, es, edgeIn), idPos, row, x) <==> forall e :: e in es && e.edgeIn == edgeIn ==> SomeBetween(g, e, row[c], x)
  {
    FirstEdgeIs(bgp, es, edgeIn);
    if FirstEdge(bgp, es, edgeIn) != [] {
      var f :| f in es && f.edgeIn == edgeIn && FirstEdge(bgp, es, edgeIn) == [EdgeFor(bgp[f.index], if edgeIn then S2O else O2S)];
      VariableEntryLists(g, bgp, f, id, idPos, row, x);
      forall e | e in es && e.edgeIn == edgeIn ensures SomeBetween(g, e, row[c], x) <==> SomeBetween(g, f, row[c], x) {
        SameDirection(g, e, f, row[c], x);
      }
    }
  }

  lemma ConstantLists(g: Store, bgp: Patterns, es: seq<SoEdge>, id: nat, idPos: PositionValue, row: Row, c: nat, x: nat)
    requires (forall e :: e in es ==> e.index < |bgp|) && EntriesAt(bgp, es, id, idPos, c) && c < |row|
    ensures AllReadable(ConstantPredicateEdges(bgp, es), idPos, row)
    ensures OnAllLists(g, ConstantPredicateEdges(bgp, es), idPos, row, x) <==>
              forall e :: e in es && bgp[e.index].pConst ==> StoredBetween(g, e, row[c], bgp[e.index].p, x)
  {
    var edges := ConstantPredicateEdges(bgp, es);
    forall edge | edge in edges ensures edge.info.joinMethod.OneNode() && Readable(edge, idPos, row) {
      InConstants(bgp, es, edge);
      var e :| e in es && bgp[e.index].pConst && EntryEdge(bgp, e) == edge;
      ConstantEntryLists(g, bgp, e, id, idPos, row, x);
    }
    if OnAllLists(g, edges, idPos, row, x) {
      forall e | e in es && bgp[e.index].pConst ensures StoredBetween(g, e, row[c], bgp[e.index].p, x) {
        InConstants(bgp, es, EntryEdge(bgp, e));
        ConstantEntryLists(g, bgp, e, id, idPos, row, x);
      }
    }
    if forall e :: e in es && bgp[e.index].pConst ==> StoredBetween(g, e, row[c], bgp[e.index].p, x) {
      forall edge | edge in edges ensures x in EdgeList(g, edge, idPos, row) {
        InConstants(bgp, es, edge);
        var e :| e in es && bgp[e.index].pConst && EntryEdge(bgp, e) == edge;
        ConstantEntryLists(g, bgp, e, id, idPos, row, x);
      }
    }
  }

  lemma ConstantsThere(bgp: Patterns, es: seq<SoEdge>)
    requires forall e :: e in es ==> e.index < |bgp|
    ensures ConstantPredicateEdges(bgp, es) != [] <==> exists e :: e in es && bgp[e.index].pConst
  {
    var edges := ConstantPredicateEdges(bgp, es);
    if edges != [] {
      InConstants(bgp, es, edges[0]);
    }
    if e :| e in es && bgp[e.index].pConst {
      InConstants(bgp, es, EntryEdge(bgp, e));
    }
  }

  lemma ListsOfTwo(g: Store, a: seq<Edge>, b: seq<Edge>, idPos: PositionValue, row: Row, x: nat)
    requires AllReadable(a, idPos, row) && AllReadable(b, idPos, row)
    ensures AllReadable(a + b, idPos, row)
    ensures OnAllLists(g, a + b, idPos, row, x) <==> OnAllLists(g, a, idPos, row, x) && OnAllLists(g, b, idPos, row, x)
  {
    assert forall e :: e in a + b <==> e in a || e in b;
  }

  /** The edges of a column allow exactly what its entries ask. */
  lemma ColumnMeaning(g: Store, bgp: Patterns, es: seq<SoEdge>, id: nat, idPos: PositionValue, row: Row, c: nat, x: nat)
    requires (forall e :: e in es ==> e.index < |bgp|) && EntriesAt(bgp, es, id, idPos, c) && c < |row|
    ensures AllReadable(ColumnEdges(bgp, es), idPos, row)
    ensures OnAllLists(g, ColumnEdges(bgp, es), idPos, row, x) <==> ColumnAllows(g, bgp, es, row[c], x)
  {
    ConstantsThere(bgp, es);
    ConstantLists(g, bgp, es, id, idPos, row, c, x);
    DirectionLists(g, bgp, es, id, idPos, row, c, true, x);
    DirectionLists(g, bgp, es, id, idPos, row, c, false, x);
    ListsOfTwo(g, FirstEdge(bgp, es, true), FirstEdge(bgp, es, false), idPos, row, x);
  }

  /** All columns together. */
  lemma {:induction false} FlatMeaning(g: Store, bgp: Patterns, columns: seq<seq<SoEdge>>, id: nat, idPos: PositionValue, row: Row, x: nat)
    requires ColumnsOk(bgp, columns) && ColumnEntries(bgp, columns, id, idPos) && |columns| <= |row|
    ensures AllReadable(FlatEdges(bgp, columns), idPos, row)
    ensures OnAllLists(g, FlatEdges(bgp, columns), idPos, row, x) <==>
              forall c :: 0 <= c < |columns| ==> ColumnAllows(g, bgp, columns[c], row[c], x)
    decreases |columns|
  {
    if columns != [] {
      var init, last := columns[..|columns| - 1], columns[|columns| - 1];
      forall c | 0 <= c < |init| ensures EntriesAt(bgp, init[c], id, idPos, c) {
        assert EntriesAt(bgp, columns[c], id, idPos, c);
      }
      FlatMeaning(g, bgp, init, id, idPos, row, x);
      assert EntriesAt(bgp, last, id, idPos, |init|);
      ColumnMeaning(g, bgp, last, id, idPos, row, |init|, x);
      ListsOfTwo(g, FlatEdges(bgp, init), ColumnEdges(bgp, last), idPos, row, x);
    }
  }

  lemma NoEntriesAllow(g: Store, bgp: Patterns, value: nat, x: nat)
    ensures ColumnAllows(g, bgp, [], value, x)
  {
  }

  /** The candidates over all columns are the ids the row allows. */
  lemma CandidatesMeanRows(env: Env, bgp: Patterns, columns: seq<seq<SoEdge>>, id: nat, idPos: PositionValue, row: Row)
    requires ColumnsOk(bgp, columns) && ColumnEntries(bgp, columns, id, idPos) && |columns| <= |row| && FlatEdges(bgp, columns) != []
    ensures AllReadable(FlatEdges(bgp, columns), idPos, row)
    ensures forall x :: x in Candidates(env, FlatEdges(bgp, columns), id, idPos, row) <==> RowAllows(env, bgp, columns, id, row, x)
    ensures StrictlyIncreasing(Candidates(env, FlatEdges(bgp, columns), id, idPos, row))
  {
    FlatMeaning(env.g, bgp, columns, id, idPos, row, 0);
    forall x ensures x in Candidates(env, FlatEdges(bgp, columns), id, idPos, row) <==> RowAllows(env, bgp, columns, id, row, x) {
      InCandidates(env, FlatEdges(bgp, columns), id, idPos, row, x);
      FlatMeaning(env.g, bgp, columns, id, idPos, row, x);
    }
    InCandidates(env, FlatEdges(bgp, columns), id, idPos, row, 0);
  }
}
