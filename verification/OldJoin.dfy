/**
 The older join: one table that grows by a column per variable while the query graph is walked with a
 stack. Its partner is the exact table of the edges between the joined variables.
 */
module OldJoin {
  import opened Rdf
  import opened IdList
  import opened TableOperator
  import opened Semantics
  import opened StepSpec
  import opened Executor
  import opened JoinCounts
  import opened BasicGraphPattern
  import opened OldJoinEdges
  import opened TableGrowth

  // ---- one row ----

  /** Narrows the valid ids down by one list; the first list also meets the candidates of a ready variable. */
  function UpdateAnswerList(have: bool, valid: seq<nat>, candidates: seq<nat>, list: seq<nat>, ready: bool): (r: seq<nat>)
    requires StrictlyIncreasing(valid) && StrictlyIncreasing(candidates) && StrictlyIncreasing(list)
    ensures StrictlyIncreasing(r)
    ensures forall x :: x in r <==> x in list && (if have then x in valid else ready ==> x in candidates)
  {
    IntersectionIncreasing(valid, list);
    IntersectionIncreasing(candidates, list);
    if have then Intersection(valid, list) else if ready then Intersection(candidates, list) else list
  }

  /** The ids that pass the edges looked at so far. */
  ghost predicate ValidSoFar(env: Env, id: nat, seen: seq<Edge>, idPos: PositionValue, row: Row, have: bool, valid: seq<nat>)
    requires AllReadable(seen, idPos, row)
  {
    && StrictlyIncreasing(valid) && (have <==> seen != [])
    && (have ==> forall x :: x in valid <==> OnAllLists(env.g, seen, idPos, row, x) && (id in env.caches ==> x in env.caches[id]))
  }

  lemma ValidIsCandidates(env: Env, id: nat, edges: seq<Edge>, idPos: PositionValue, row: Row, valid: seq<nat>)
    requires AllReadable(edges, idPos, row) && edges != [] && ValidSoFar(env, id, edges, idPos, row, true, valid)
    ensures valid == Candidates(env, edges, id, idPos, row)
  {
    forall x ensures x in valid <==> x in Candidates(env, edges, id, idPos, row) {
      InCandidates(env, edges, id, idPos, row, x);
    }
    InCandidates(env, edges, id, idPos, row, 0);
    SortedUnique(valid, Candidates(env, edges, id, idPos, row));
  }

  /** If some of the edges already leave no id, all of them together leave none. */
  lemma NoCandidates(env: Env, id: nat, seen: seq<Edge>, edges: seq<Edge>, idPos: PositionValue, row: Row)
    requires AllReadable(edges, idPos, row) && forall e :: e in seen ==> e in edges
    requires AllReadable(seen, idPos, row) && seen != [] && ValidSoFar(env, id, seen, idPos, row, true, [])
    ensures Candidates(env, edges, id, idPos, row) == []
  {
    if Candidates(env, edges, id, idPos, row) != [] {
      var x := Candidates(env, edges, id, idPos, row)[0];
      InCandidates(env, edges, id, idPos, row, x);
      assert OnAllLists(env.g, seen, idPos, row, x);
    }
  }

  lemma SeenSnoc(env: Env, id: nat, seen: seq<Edge>, e: Edge, idPos: PositionValue, row: Row, have: bool, valid: seq<nat>, after: seq<nat>)
    requires AllReadable(seen, idPos, row) && e.info.joinMethod.OneNode() && Readable(e, idPos, row)
    requires ValidSoFar(env, id, seen, idPos, row, have, valid) && StrictlyIncreasing(after)
    requires forall x :: x in after <==>
               x in EdgeList(env.g, e, idPos, row) && (if have then x in valid else (id in env.caches ==> x in env.caches[id]))
    ensures AllReadable(seen + [e], idPos, row)
    ensures ValidSoFar(env, id, seen + [e], idPos, row, true, after)
  {
    assert forall k :: k in seen + [e] <==> k in seen || k == e;
  }

  lemma ReadableEdge(edges: seq<Edge>, i: nat, idPos: PositionValue, row: Row)
    requires AllReadable(edges, idPos, row) && i < |edges|
    ensures edges[i].info.joinMethod.OneNode() && Readable(edges[i], idPos, row)
  {
    assert edges[i] in edges;
  }

  method MatchEdge(env: Env, e: Edge, id: nat, idPos: PositionValue, row: Row, ghost seen: seq<Edge>, have: bool, valid: seq<nat>)
    returns (after: seq<nat>)
    requires env.CachesSorted() && AllReadable(seen, idPos, row) && e.info.joinMethod.OneNode() && Readable(e, idPos, row)
    requires ValidSoFar(env, id, seen, idPos, row, have, valid)
    ensures AllReadable(seen + [e], idPos, row)
    ensures ValidSoFar(env, id, seen + [e], idPos, row, true, after)
  {
    var candidates := if id in env.caches then env.caches[id] else [];
    var list := EdgeList(env.g, e, idPos, row);
    EdgeListIncreasing(env.g, e, idPos, row);
    after := UpdateAnswerList(have, valid, candidates, list, id in env.caches);
    SeenSnoc(env, id, seen, e, idPos, row, have, valid, after);
  }

  /** The edges of one column for one row. */
  method MatchColumn(env: Env, edges: seq<Edge>, id: nat, idPos: PositionValue, row: Row, ghost seen: seq<Edge>, have: bool, valid: seq<nat>)
    returns (matched: bool, haveNow: bool, after: seq<nat>, ghost done: nat)
    requires env.CachesSorted() && AllReadable(seen, idPos, row) && AllReadable(edges, idPos, row)
    requires ValidSoFar(env, id, seen, idPos, row, have, valid)
    ensures done <= |edges| && (matched ==> done == |edges|) && (!matched ==> done > 0 && after == [] && haveNow)
    ensures AllReadable(seen + edges[..done], idPos, row)
    ensures ValidSoFar(env, id, seen + edges[..done], idPos, row, haveNow, after)
  {
    matched, haveNow, after, done := true, have, valid, 0;
    assert seen + edges[..0] == seen;
    var i := 0;
    while i < |edges|
      invariant 0 <= i <= |edges| && done == i && matched
      invariant AllReadable(seen + edges[..i], idPos, row)
      invariant ValidSoFar(env, id, seen + edges[..i], idPos, row, haveNow, after)
    {
      var e := edges[i];
      ReadableEdge(edges, i, idPos, row);
      var next := MatchEdge(env, e, id, idPos, row, seen + edges[..i], haveNow, after);
      assert seen + edges[..i + 1] == (seen + edges[..i]) + [e];
      after, haveNow, i := next, true, i + 1;
      done := i;
      if after == [] {
        matched := false;
        return;
      }
    }
  }

  /** The ids that one row allows for the new variable; a row without any is not matched. */
  method MatchRow(env: Env, bgp: Patterns, columns: seq<seq<SoEdge>>, id: nat, idPos: PositionValue, row: Row) returns (ids: seq<nat>)
    requires env.CachesSorted() && ColumnsOk(bgp, columns) && FlatEdges(bgp, columns) != []
    requires AllReadable(FlatEdges(bgp, columns), idPos, row)
    ensures ids == Candidates(env, FlatEdges(bgp, columns), id, idPos, row) && StrictlyIncreasing(ids)
    ensures ColumnEntries(bgp, columns, id, idPos) && |columns| <= |row| ==> forall x :: x in ids <==> RowAllows(env, bgp, columns, id, row, x)
  {
    RowMeaning(env, bgp, columns, id, idPos, row);
    ids := MatchColumns(env, bgp, columns, id, idPos, row);
  }

  lemma RowMeaning(env: Env, bgp: Patterns, columns: seq<seq<SoEdge>>, id: nat, idPos: PositionValue, row: Row)
    requires ColumnsOk(bgp, columns) && FlatEdges(bgp, columns) != [] && AllReadable(FlatEdges(bgp, columns), idPos, row)
    ensures StrictlyIncreasing(Candidates(env, FlatEdges(bgp, columns), id, idPos, row))
    ensures ColumnEntries(bgp, columns, id, idPos) && |columns| <= |row| ==>
              forall x :: x in Candidates(env, FlatEdges(bgp, columns), id, idPos, row) <==> RowAllows(env, bgp, columns, id, row, x)
  {
    InCandidates(env, FlatEdges(bgp, columns), id, idPos, row, 0);
    if ColumnEntries(bgp, columns, id, idPos) && |columns| <= |row| {
      CandidatesMeanRows(env, bgp, columns, id, idPos, row);
    }
  }

  /** The ids left once the first columns have narrowed them down. */
  ghost predicate Narrowed(env: Env, bgp: Patterns, columns: seq<seq<SoEdge>>, n: nat, id: nat, idPos: PositionValue, row: Row,
                           have: bool, ids: seq<nat>)
  {
    && n <= |columns| && ColumnsOk(bgp, columns[..n]) && AllReadable(FlatEdges(bgp, columns[..n]), idPos, row)
    && ValidSoFar(env, id, FlatEdges(bgp, columns[..n]), idPos, row, have, ids)
  }

  /** The columns one after the other, each narrowing the ids down. */
  method MatchColumns(env: Env, bgp: Patterns, columns: seq<seq<SoEdge>>, id: nat, idPos: PositionValue, row: Row) returns (ids: seq<nat>)
    requires env.CachesSorted() && ColumnsOk(bgp, columns) && FlatEdges(bgp, columns) != []
    requires AllReadable(FlatEdges(bgp, columns), idPos, row)
    ensures ids == Candidates(env, FlatEdges(bgp, columns), id, idPos, row)
  {
    ids := [];
    var have, cnt, matched := false, 0, true;
    while cnt < |columns|
      invariant 0 <= cnt <= |columns| && Narrowed(env, bgp, columns, cnt, id, idPos, row, have, ids)
    {
      matched, have, ids := MatchNext(env, bgp, columns, cnt, id, idPos, row, have, ids);
      if !matched {
        return [];
      }
      cnt := cnt + 1;
    }
    assert columns[..cnt] == columns;
    ValidIsCandidates(env, id, FlatEdges(bgp, columns), idPos, row, ids);
  }

  /** One more column; a row that no id is left for is done with. */
  method MatchNext(env: Env, bgp: Patterns, columns: seq<seq<SoEdge>>, cnt: nat, id: nat, idPos: PositionValue, row: Row, have: bool, ids: seq<nat>)
    returns (matched: bool, haveNow: bool, after: seq<nat>)
    requires env.CachesSorted() && ColumnsOk(bgp, columns) && AllReadable(FlatEdges(bgp, columns), idPos, row)
    requires cnt < |columns| && Narrowed(env, bgp, columns, cnt, id, idPos, row, have, ids)
    ensures matched ==> Narrowed(env, bgp, columns, cnt + 1, id, idPos, row, haveNow, after)
    ensures !matched ==> Candidates(env, FlatEdges(bgp, columns), id, idPos, row) == []
  {
    FlatSnoc(bgp, columns, cnt);
    FlatPrefix(bgp, columns, cnt + 1);
    var edges := ColumnEdges(bgp, columns[cnt]);
    ghost var seen := FlatEdges(bgp, columns[..cnt]);
    ReadableParts(seen, edges, FlatEdges(bgp, columns), idPos, row);
    ghost var done;
    matched, haveNow, after, done := MatchColumn(env, edges, id, idPos, row, seen, have, ids);
    if matched {
      assert edges[..done] == edges;
    } else {
      NoCandidates(env, id, seen + edges[..done], FlatEdges(bgp, columns), idPos, row);
    }
  }

  lemma ReadableParts(seen: seq<Edge>, edges: seq<Edge>, all: seq<Edge>, idPos: PositionValue, row: Row)
    requires AllReadable(all, idPos, row) && forall e :: e in seen + edges ==> e in all
    ensures AllReadable(edges, idPos, row)
  {
    assert forall e :: e in edges ==> e in seen + edges;
  }

  /** The ids each row allows, as a function of the row. */
  ghost function ChoiceOf(env: Env, edges: seq<Edge>, id: nat, idPos: PositionValue): Choice {
    (row: Row) => if AllReadable(edges, idPos, row) then Candidates(env, edges, id, idPos, row) else []
  }

  lemma KeptIffGrown(valid: Choice, rows: seq<Row>)
    ensures Kept(valid, rows) != [] <==> AllGrown(valid, rows) != []
    ensures Kept(valid, rows) == [] ==> Appended(valid, rows) == []
  {
    if rows != [] {
      KeptIffGrown(valid, rows[..|rows| - 1]);
    }
  }

  lemma {:induction false} NothingGrown(valid: Choice, rows: seq<Row>)
    requires forall row :: row in rows ==> valid(row) == []
    ensures AllGrown(valid, rows) == []
  {
    if rows != [] {
      assert rows[|rows| - 1] in rows && forall row :: row in rows[..|rows| - 1] ==> row in rows;
      NothingGrown(valid, rows[..|rows| - 1]);
    }
  }

  // ---- what joining a variable does to the table ----

  lemma {:induction false} GrownCount(valid: Choice, rows: seq<Row>, r: Row)
    requires forall row :: row in rows ==> StrictlyIncreasing(valid(row))
    ensures multiset(AllGrown(valid, rows))[r] ==
              if r != [] && r[|r| - 1] in valid(r[..|r| - 1]) then multiset(rows)[r[..|r| - 1]] else 0
    decreases |rows|
  {
    if rows != [] {
      var init, last := rows[..|rows| - 1], rows[|rows| - 1];
      assert rows == init + [last] && last in rows;
      forall row | row in init ensures row in rows {
      }
      GrownCount(valid, init, r);
      CountOfIncreasing(last, valid(last), r);
      assert RowPlus(last, valid(last)) == Extended(last, valid(last));
    }
  }

  /** How often a row occurs after the join: as often as the row before it did, if that row allows its last id. */
  ghost predicate OccursJoined(env: Env, bgp: Patterns, columns: seq<seq<SoEdge>>, id: nat, before: seq<Row>, after: seq<Row>, r: Row)
    requires ColumnsOk(bgp, columns) && forall row :: row in before ==> |columns| <= |row|
  {
    var row := if r == [] then r else r[..|r| - 1];
    multiset(after)[r] == if r != [] && row in before && RowAllows(env, bgp, columns, id, row, r[|r| - 1]) then multiset(before)[row] else 0
  }

  /** A join succeeds exactly if some row allows some id, and then the table holds every row with every id it allows. */
  ghost predicate JoinedRight(env: Env, bgp: Patterns, columns: seq<seq<SoEdge>>, id: nat, before: seq<Row>, found: bool, after: seq<Row>)
    requires ColumnsOk(bgp, columns) && forall row :: row in before ==> |columns| <= |row|
  {
    && (found <==> exists row: Row, x: nat :: row in before && RowAllows(env, bgp, columns, id, row, x))
    && (found ==> forall r: Row :: OccursJoined(env, bgp, columns, id, before, after, r))
  }

  /** The rows have a value in every column, and the entries of a column are about its variable. */
  ghost predicate ColumnsFit(bgp: Patterns, columns: seq<seq<SoEdge>>, id: nat, idPos: PositionValue, rows: seq<Row>) {
    ColumnEntries(bgp, columns, id, idPos) && forall row :: row in rows ==> |columns| <= |row|
  }

  /** A choice of ids is the right one for a row. */
  ghost predicate Chooses(env: Env, bgp: Patterns, columns: seq<seq<SoEdge>>, id: nat, ids: seq<nat>, row: Row)
    requires ColumnsOk(bgp, columns) && |columns| <= |row|
  {
    StrictlyIncreasing(ids) && forall x :: x in ids <==> RowAllows(env, bgp, columns, id, row, x)
  }

  lemma GrownOccurs(env: Env, bgp: Patterns, columns: seq<seq<SoEdge>>, id: nat, valid: Choice, before: seq<Row>, r: Row)
    requires ColumnsOk(bgp, columns) && forall row :: row in before ==> |columns| <= |row| && Chooses(env, bgp, columns, id, valid(row), row)
    ensures OccursJoined(env, bgp, columns, id, before, AllGrown(valid, before), r)
  {
    forall row | row in before ensures StrictlyIncreasing(valid(row)) {
      assert Chooses(env, bgp, columns, id, valid(row), row);
    }
    GrownCount(valid, before, r);
    if r != [] && r[..|r| - 1] in before {
      assert Chooses(env, bgp, columns, id, valid(r[..|r| - 1]), r[..|r| - 1]);
    }
  }

  lemma GrownIff(env: Env, bgp: Patterns, columns: seq<seq<SoEdge>>, id: nat, valid: Choice, before: seq<Row>)
    requires ColumnsOk(bgp, columns) && forall row :: row in before ==> |columns| <= |row| && Chooses(env, bgp, columns, id, valid(row), row)
    ensures AllGrown(valid, before) != [] <==> exists row: Row, x: nat :: row in before && RowAllows(env, bgp, columns, id, row, x)
  {
    var grown := AllGrown(valid, before);
    if grown != [] {
      var r := grown[0];
      GrownOccurs(env, bgp, columns, id, valid, before, r);
      assert r in multiset(grown);
      assert r[..|r| - 1] in before && RowAllows(env, bgp, columns, id, r[..|r| - 1], r[|r| - 1]);
    }
    if row: Row, x: nat :| row in before && RowAllows(env, bgp, columns, id, row, x) {
      var r := row + [x];
      GrownOccurs(env, bgp, columns, id, valid, before, r);
      assert r[..|r| - 1] == row;
      assert r in multiset(grown);
    }
  }

  lemma JoinedMeaning(env: Env, bgp: Patterns, columns: seq<seq<SoEdge>>, id: nat, idPos: PositionValue, before: seq<Row>, found: bool, after: seq<Row>)
    requires ColumnsOk(bgp, columns) && FlatEdges(bgp, columns) != [] && ColumnsFit(bgp, columns, id, idPos, before)
    requires var valid := ChoiceOf(env, FlatEdges(bgp, columns), id, idPos);
             && (found <==> AllGrown(valid, before) != [])
             && (found ==> after == Kept(valid, before) + Appended(valid, before))
    ensures JoinedRight(env, bgp, columns, id, before, found, after)
  {
    var valid := ChoiceOf(env, FlatEdges(bgp, columns), id, idPos);
    forall row | row in before ensures Chooses(env, bgp, columns, id, valid(row), row) {
      CandidatesMeanRows(env, bgp, columns, id, idPos, row);
    }
    GrownIff(env, bgp, columns, id, valid, before);
    if found {
      GrownAsBag(valid, before);
      forall r: Row ensures OccursJoined(env, bgp, columns, id, before, after, r) {
        GrownOccurs(env, bgp, columns, id, valid, before, r);
      }
    }
  }

  class Join {
    var currentTable: seq<Row>
    var newStart: Border
    var id2pos: PositionValue
    var pos2id: PositionValue
    var idPos: nat
    var dealedTriple: set<nat>
    var mystack: seq<nat>

    constructor (dealed: set<nat>)
      ensures currentTable == [] && newStart == End && id2pos == map[] && pos2id == map[] && idPos == 0
      ensures dealedTriple == dealed && mystack == []
    {
      currentTable, newStart, id2pos, pos2id, idPos := [], End, map[], map[], 0;
      dealedTriple, mystack := dealed, [];
    }

    /** Appends a copy of a row whose last entry is replaced. */
    method AddNewToResults(it: nat, id: nat)
      requires it < |currentTable| && currentTable[it] != []
      modifies this`currentTable
      ensures currentTable == old(currentTable) + [old(currentTable)[it][..|old(currentTable)[it]| - 1] + [id]]
    {
      var tmp := currentTable[it];
      currentTable := currentTable + [tmp[..|tmp| - 1] + [id]];
    }

    /**
     One row of the walk. The border moves to the first row this round appends and stays in front of
     that row when an earlier row is erased.
     */
    method GrowRow(it: nat, ids: seq<nat>, started: bool) returns (next: nat, startedNow: bool)
      requires it < |currentTable|
      requires started ==> newStart.At? && it < newStart.index < |currentTable|
      requires !started ==> newStart == End
      modifies this`currentTable, this`newStart
      ensures startedNow == (started || |ids| > 1)
      ensures var row := old(currentTable)[it];
              && currentTable == old(currentTable)[..it] + KeptOf(ids, row) + old(currentTable)[it + 1..] + AppendedOf(ids, row)
              && next == it + |KeptOf(ids, row)|
      ensures newStart == BorderAfter(old(newStart), ids, |old(currentTable)|)
    {
      startedNow := started;
      if |ids| > 0 {
        ghost var row, before := currentTable[it], currentTable;
        currentTable := currentTable[it := currentTable[it] + [ids[0]]];
        var begin := 1;
        if !startedNow && |ids| > 1 {
          AddNewToResults(it, ids[1]);
          startedNow := true;
          newStart := At(|currentTable| - 1);
          begin := 2;
        }
        ghost var border := newStart;
        var j := begin;
        assert row + [ids[0]] == before[it] + [ids[0]];
        while j < |ids|
          invariant 1 <= j <= |ids|
          invariant currentTable == before[it := row + [ids[0]]] + RowPlus(row, ids[1..j])
          invariant newStart == border
        {
          assert currentTable[it] == row + [ids[0]];
          assert ids[1..j + 1] == ids[1..j] + [ids[j]];
          AddNewToResults(it, ids[j]);
          j := j + 1;
        }
        assert ids[1..j] == ids[1..];
        assert before[it := row + [ids[0]]] == before[..it] + [row + [ids[0]]] + before[it + 1..];
        next := it + 1;
      } else {
        currentTable := currentTable[..it] + currentTable[it + 1..];
        newStart := if newStart.At? then At(newStart.index - 1) else End;
        next := it;
      }
    }

    /** The next column belongs to the variable. */
    method AddIdPosMapping(id: nat)
      modifies this`id2pos, this`pos2id, this`idPos
      ensures pos2id == old(pos2id)[old(idPos) := id] && id2pos == old(id2pos)[id := old(idPos)] && idPos == old(idPos) + 1
    {
      pos2id := pos2id[idPos := id];
      id2pos := id2pos[id := idPos];
      idPos := idPos + 1;
    }

    predicate AtBorder(it: nat)
      reads this
    {
      match newStart
      case End => it == |currentTable|
      case At(k) => it == k
    }

    /** One step of the walk: the row at the iterator is matched and grown or erased. */
    method JoinRow(env: Env, bgp: Patterns, columns: seq<seq<SoEdge>>, id: nat, it: nat, started: bool, ghost valid: Choice,
                   ghost input: seq<Row>, ghost done: nat)
      returns (next: nat, startedNow: bool, hit: bool)
      requires env.CachesSorted() && ColumnsOk(bgp, columns) && FlatEdges(bgp, columns) != []
      requires done < |input| && AllReadable(FlatEdges(bgp, columns), id2pos, input[done])
      requires valid(input[done]) == Candidates(env, FlatEdges(bgp, columns), id, id2pos, input[done])
      requires Walking(currentTable, newStart, it, valid, input, done) && (started <==> Appended(valid, input[..done]) != [])
      modifies this`currentTable, this`newStart
      ensures Walking(currentTable, newStart, next, valid, input, done + 1)
      ensures startedNow <==> Appended(valid, input[..done + 1]) != []
      ensures hit <==> KeptOf(valid(input[done]), input[done]) != []
    {
      ghost var before, border := currentTable, newStart;
      WalkEnds(currentTable, newStart, it, valid, input, done);
      var ids := MatchRow(env, bgp, columns, id, id2pos, currentTable[it]);
      next, startedNow := GrowRow(it, ids, started);
      hit := ids != [];
      WalkStep(before, border, it, valid, input, done, next, currentTable);
      OneMoreRow(valid, input, done);
    }

    /**
     Joins one variable to the table in place: every old row is visited once, no new row is, and the
     rows that come out are the old rows that stay, followed by the new ones.
     */
    method JoinTwo(env: Env, bgp: Patterns, columns: seq<seq<SoEdge>>, id: nat) returns (found: bool)
      requires env.CachesSorted() && ColumnsOk(bgp, columns) && FlatEdges(bgp, columns) != [] && newStart == End
      requires forall row :: row in currentTable ==> AllReadable(FlatEdges(bgp, columns), id2pos, row)
      modifies this`currentTable, this`newStart
      ensures var valid := ChoiceOf(env, FlatEdges(bgp, columns), id, id2pos);
              && (found <==> AllGrown(valid, old(currentTable)) != [])
              && (found ==> currentTable == Kept(valid, old(currentTable)) + Appended(valid, old(currentTable)))
      ensures ColumnsFit(bgp, columns, id, id2pos, old(currentTable)) ==>
                JoinedRight(env, bgp, columns, id, old(currentTable), found, currentTable)
    {
      ghost var before := currentTable;
      found := JoinRows(env, bgp, columns, id);
      if ColumnsFit(bgp, columns, id, id2pos, before) {
        JoinedMeaning(env, bgp, columns, id, id2pos, before, found, currentTable);
      }
    }

    /** The join itself: nothing to do for an empty candidate list, else the walk. */
    method JoinRows(env: Env, bgp: Patterns, columns: seq<seq<SoEdge>>, id: nat) returns (found: bool)
      requires env.CachesSorted() && ColumnsOk(bgp, columns) && FlatEdges(bgp, columns) != [] && newStart == End
      requires forall row :: row in currentTable ==> AllReadable(FlatEdges(bgp, columns), id2pos, row)
      modifies this`currentTable, this`newStart
      ensures var valid := ChoiceOf(env, FlatEdges(bgp, columns), id, id2pos);
              && (found <==> AllGrown(valid, old(currentTable)) != [])
              && (found ==> currentTable == Kept(valid, old(currentTable)) + Appended(valid, old(currentTable)))
    {
      ghost var edges, input := FlatEdges(bgp, columns), currentTable;
      ghost var valid := ChoiceOf(env, edges, id, id2pos);
      if id in env.caches && env.caches[id] == [] {
        forall row | row in currentTable ensures valid(row) == [] {
          NoneInEmptyCache(env, edges, id, id2pos, row);
        }
        NothingGrown(valid, currentTable);
        return false;
      }
      found := WalkTable(env, bgp, columns, id, valid);
      KeptIffGrown(valid, input);
    }

    /** The walk over the whole table. */
    method WalkTable(env: Env, bgp: Patterns, columns: seq<seq<SoEdge>>, id: nat, ghost valid: Choice) returns (found: bool)
      requires env.CachesSorted() && ColumnsOk(bgp, columns) && FlatEdges(bgp, columns) != [] && newStart == End
      requires forall row :: row in currentTable ==> RowChosen(env, FlatEdges(bgp, columns), id, id2pos, valid, row)
      modifies this`currentTable, this`newStart
      ensures currentTable == Kept(valid, old(currentTable)) + Appended(valid, old(currentTable))
      ensures found <==> Kept(valid, old(currentTable)) != []
    {
      found := false;
      var it, started := 0, false;
      ghost var input := currentTable;
      ghost var done: nat := 0;
      WalkStarts(valid, input);
      while !AtBorder(it)
        invariant done <= |input| && Walking(currentTable, newStart, it, valid, input, done)
        invariant started <==> Appended(valid, input[..done]) != []
        invariant found <==> Kept(valid, input[..done]) != []
        decreases |input| - done
      {
        WalkEnds(currentTable, newStart, it, valid, input, done);
        NextChosen(env, FlatEdges(bgp, columns), id, id2pos, valid, input, done);
        var next, hit;
        next, started, hit := JoinRow(env, bgp, columns, id, it, started, valid, input, done);
        found := found || hit;
        it, done := next, done + 1;
      }
      WalkEnds(currentTable, newStart, it, valid, input, done);
      WalkDone(valid, input);
    }
  }

  lemma WalkStarts(valid: Choice, input: seq<Row>)
    ensures Walking(input, End, 0, valid, input, 0)
    ensures Appended(valid, input[..0]) == [] && Kept(valid, input[..0]) == []
  {
    assert input[..0] == [] && input[0..] == input;
  }

  lemma WalkDone(valid: Choice, input: seq<Row>)
    ensures Kept(valid, input[..|input|]) + input[|input|..] + Appended(valid, input[..|input|]) == Kept(valid, input) + Appended(valid, input)
    ensures Kept(valid, input[..|input|]) == Kept(valid, input)
  {
    assert input[..|input|] == input && input[|input|..] == [];
  }

  lemma NextChosen(env: Env, edges: seq<Edge>, id: nat, idPos: PositionValue, valid: Choice, input: seq<Row>, done: nat)
    requires done < |input| && forall row :: row in input ==> RowChosen(env, edges, id, idPos, valid, row)
    ensures RowChosen(env, edges, id, idPos, valid, input[done])
    ensures Kept(valid, input[..done + 1]) == Kept(valid, input[..done]) + KeptOf(valid(input[done]), input[done])
  {
    assert input[done] in input;
    OneMoreRow(valid, input, done);
  }

  ghost predicate RowChosen(env: Env, edges: seq<Edge>, id: nat, idPos: PositionValue, valid: Choice, row: Row) {
    AllReadable(edges, idPos, row) && valid(row) == Candidates(env, edges, id, idPos, row)
  }

  lemma NoneInEmptyCache(env: Env, edges: seq<Edge>, id: nat, idPos: PositionValue, row: Row)
    requires AllReadable(edges, idPos, row) && id in env.caches && env.caches[id] == []
    ensures Candidates(env, edges, id, idPos, row) == []
  {
    if edges != [] {
      assert edges[0] in edges;
      assert (set x | x in EdgeList(env.g, edges[0], idPos, row) && OnAllLists(env.g, edges, idPos, row, x)
                      && (id in env.caches ==> x in env.caches[id])) == {};
    }
  }
}
