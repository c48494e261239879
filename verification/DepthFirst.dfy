/**
 Depth-first execution of a chain with a result limit. Its partner is the breadth-first run of the
 same chain: the search returns the beginning of that run's rows.
 */
module DepthFirst {
  import opened TableOperator
  import opened Semantics
  import opened StepSpec
  import opened Executor
  import opened ExecutorFilter
  import opened PlanChain
  import opened ChainLayouts
  import opened DepthSpec
  import Sequences

  /** The step with the caller's choice of keeping the input or not; the rows do not depend on it. */
  function WithRemainOld(step: StepOperation, remainOld: bool): StepOperation {
    match step
    case JoinNode(feed, distinct, _) => JoinNode(feed, distinct, remainOld)
    case JoinTwoNodes(feed, _) => JoinTwoNodes(feed, remainOld)
    case EdgeCheck(feed, _) => EdgeCheck(feed, remainOld)
    case JoinTable(variables, _) => JoinTable(variables, remainOld)
  }

  lemma RemainOldIrrelevant(env: Env, step: StepOperation, remainOld: bool, idPos: PositionValue, rows: seq<Row>)
    requires AllStepReadable(step, idPos, rows)
    ensures AllStepReadable(WithRemainOld(step, remainOld), idPos, rows)
    ensures StepRows(env, WithRemainOld(step, remainOld), idPos, rows) == StepRows(env, step, idPos, rows)
  {
    var step' := WithRemainOld(step, remainOld);
    assert forall row :: StepReadable(step', idPos, row) <==> StepReadable(step, idPos, row);
    Sequences.FlatMapSame(StepFunction(env, step', idPos), StepFunction(env, step, idPos), rows);
  }

  lemma OwnNodesUnread(step: StepOperation, known: set<nat>)
    requires StepFits(step, known)
    ensures step.JoinNode? ==> forall e :: e in step.node.edges ==> step.node.nodeToJoin !in e.Reads()
    ensures step.JoinTwoNodes? ==> step.twoNodes.nodeToJoin1 !in step.twoNodes.edge.Reads() && step.twoNodes.nodeToJoin2 !in step.twoNodes.edge.Reads()
  {
    if step.JoinNode? {
      forall e | e in step.node.edges ensures step.node.nodeToJoin !in e.Reads() {
        assert e.Reads() <= known;
      }
    }
  }

  /** Carries out one step that extends or filters a table; the table may have other columns than the step expects. */
  method RunStep(env: Env, step: StepOperation, oldTable: IntermediateResult, remainOld: bool, ghost known: set<nat>)
    returns (newTable: IntermediateResult)
    requires env.CachesSorted() && StepFits(step, known) && AllStepReadable(step, oldTable.idPos, oldTable.values)
    modifies oldTable`values
    ensures fresh(newTable)
    ensures newTable.values == StepRows(env, step, oldTable.idPos, old(oldTable.values))
    ensures Columns(newTable.idPos, newTable.posId) == NextColumns(step, Columns(oldTable.idPos, oldTable.posId))
  {
    OwnNodesUnread(step, known);
    RemainOldIrrelevant(env, step, remainOld, oldTable.idPos, oldTable.values);
    match step
    case JoinNode(feed, distinct, _) =>
      newTable := JoinANode(env, oldTable, feed, distinct, remainOld);
    case JoinTwoNodes(feed, _) =>
      newTable := JoinTwoNode(env, feed, oldTable, remainOld);
    case EdgeCheck(feed, _) =>
      forall e | e in feed.edges ensures AllCheckable(e, oldTable.idPos, oldTable.values) {
        assert forall row :: row in oldTable.values ==> StepReadable(step, oldTable.idPos, row);
      }
      newTable := ANodeEdgesConstraintFilter(env, feed, oldTable, remainOld);
  }

  class ResultCounter {
    var value: int

    constructor ()
      ensures value == 0
    {
      value := 0;
    }
  }

  /**
   What a search found out of all there is to find: the beginning of it, counted once each, and all of
   it unless the limit was reached. Something is found whenever there is something. A limit of zero is
   reached with the first record that leads anywhere.
   */
  ghost predicate Collected(full: seq<Row>, first: seq<Row>, found: seq<Row>, before: int, after: int, limit: int) {
    && found <= full && after == before + |found|
    && (found == [] ==> full == [])
    && (found != full ==> limit != -1 && after >= limit)
    && (limit == 0 ==> found == first)
  }

  /** The prepared layouts have what each step reads where the tables have it. */
  ghost predicate TemplatesFit(steps: seq<StepOperation>, template: seq<Columns>)
    requires |steps| > 0 && Starts(steps[0])
  {
    |template| == |steps| && forall i :: 0 < i < |steps| ==> LayoutFits(steps, template, i)
  }

  ghost predicate LayoutFits(steps: seq<StepOperation>, template: seq<Columns>, layer: nat)
    requires 0 < layer < |steps| == |template| && Starts(steps[0])
  {
    AgreeOn(StepReads(steps[layer]), ColumnsAt(steps, layer - 1).idPos, template[layer - 1].idPos)
  }

  /** One more record of a layer: its own rows are the next part of the layer's rows. */
  lemma NextRecord(env: Env, steps: seq<StepOperation>, layer: nat, rows: seq<Row>, done: nat)
    requires ChainFits(steps) && 0 < layer <= |steps| && Shaped(ColumnsAt(steps, layer - 1), rows) && done < |rows|
    ensures var c := ColumnsAt(steps, layer - 1);
            Shaped(c, rows[..done]) && Shaped(c, [rows[done]]) && Shaped(c, rows[..done + 1]) && Shaped(c, rows[done + 1..])
    ensures RestRows(env, steps, layer, rows[..done + 1]) == RestRows(env, steps, layer, rows[..done]) + RestRows(env, steps, layer, [rows[done]])
    ensures RestRows(env, steps, layer, rows) == RestRows(env, steps, layer, rows[..done + 1]) + RestRows(env, steps, layer, rows[done + 1..])
  {
    var c := ColumnsAt(steps, layer - 1);
    assert rows[..done + 1] == rows[..done] + [rows[done]];
    assert rows == rows[..done + 1] + rows[done + 1..];
    ShapedParts(c, rows[..done + 1], rows[done + 1..]);
    ShapedParts(c, rows[..done], [rows[done]]);
    RestRowsAppend(env, steps, layer, rows[..done], [rows[done]]);
    RestRowsAppend(env, steps, layer, rows[..done + 1], rows[done + 1..]);
  }

  /** Read through a layout that serves it, a step makes the next layer's table. */
  lemma LayoutGivesLayer(env: Env, steps: seq<StepOperation>, layer: nat, rows: seq<Row>, layout: Columns)
    requires ChainFits(steps) && 0 < layer < |steps| && Shaped(ColumnsAt(steps, layer - 1), rows)
    requires AgreeOn(StepReads(steps[layer]), ColumnsAt(steps, layer - 1).idPos, layout.idPos)
    ensures StepFits(steps[layer], ColumnsAt(steps, layer - 1).idPos.Keys)
    ensures AllStepReadable(steps[layer], layout.idPos, rows)
    ensures StepRows(env, steps[layer], layout.idPos, rows) == LayerRows(env, steps, layer, rows)
  {
    assert FitsAt(steps, layer);
    StepKeepsShape(env, steps[layer], ColumnsAt(steps, layer - 1), rows);
    StepRowsAgree(env, steps[layer], ColumnsAt(steps, layer - 1).idPos, layout.idPos, rows);
  }

  /** The rows of the next layer, computed with the layout prepared for this one. */
  method NextLayer(env: Env, steps: seq<StepOperation>, layer: nat, rows: seq<Row>, layout: Columns) returns (next: seq<Row>)
    requires env.CachesSorted() && ChainFits(steps) && 0 < layer < |steps|
    requires AgreeOn(StepReads(steps[layer]), ColumnsAt(steps, layer - 1).idPos, layout.idPos)
    requires Shaped(ColumnsAt(steps, layer - 1), rows)
    ensures next == LayerRows(env, steps, layer, rows)
  {
    var oldTable := new IntermediateResult();
    oldTable.values, oldTable.idPos, oldTable.posId := rows, layout.idPos, layout.posId;
    LayoutGivesLayer(env, steps, layer, rows, layout);
    var stepTable := RunStep(env, steps[layer], oldTable, false, ColumnsAt(steps, layer - 1).idPos.Keys);
    next := stepTable.values;
  }

  /** Searches below the given rows of a layer; stops early only if the limit has been reached. */
  method DepthSearchOneLayer(env: Env, steps: seq<StepOperation>, layer: nat, resultNumber: ResultCounter, limit: int, rows: seq<Row>,
                             template: seq<Columns>)
    returns (ok: bool, result: IntermediateResult)
    requires env.CachesSorted() && ChainFits(steps) && 0 < layer < |steps| && TemplatesFit(steps, template)
    requires Shaped(ColumnsAt(steps, layer - 1), rows) && resultNumber.value >= 0
    modifies resultNumber
    ensures fresh(result) && Columns(result.idPos, result.posId) == template[layer]
    ensures ok <==> LayerRows(env, steps, layer, rows) != []
    ensures Collected(RestRows(env, steps, layer, rows), FirstDown(env, steps, layer + 1, LayerRows(env, steps, layer, rows)), result.values,
                      old(resultNumber.value), resultNumber.value, limit)
    decreases |steps| - layer, 0
  {
    result := new IntermediateResult();
    result.idPos, result.posId := template[layer].idPos, template[layer].posId;
    assert LayoutFits(steps, template, layer);
    var stepTable := NextLayer(env, steps, layer, rows, template[layer - 1]);
    var found := SearchBelow(env, steps, layer, resultNumber, limit, stepTable, template);
    ok, result.values := stepTable != [], found;
  }

  /** What the rows of a layer lead to: nothing, themselves at the bottom, or what is found further down. */
  method SearchBelow(env: Env, steps: seq<StepOperation>, layer: nat, resultNumber: ResultCounter, limit: int, stepTable: seq<Row>,
                     template: seq<Columns>)
    returns (found: seq<Row>)
    requires env.CachesSorted() && ChainFits(steps) && 0 < layer < |steps| && TemplatesFit(steps, template)
    requires Shaped(ColumnsAt(steps, layer), stepTable) && resultNumber.value >= 0
    modifies resultNumber
    ensures Collected(RestRows(env, steps, layer + 1, stepTable), FirstDown(env, steps, layer + 1, stepTable), found,
                      old(resultNumber.value), resultNumber.value, limit)
    decreases |steps| - layer - 1, 3
  {
    if stepTable == [] {
      RestRowsOfNothing(env, steps, layer + 1);
      return [];
    }
    if layer + 1 == |steps| {
      resultNumber.value := resultNumber.value + |stepTable|;
      return stepTable;
    }
    found := SearchRecords(env, steps, layer + 1, resultNumber, limit, stepTable, template);
  }

  lemma RestRowsOfNothing(env: Env, steps: seq<StepOperation>, layer: nat)
    requires ChainFits(steps) && 0 < layer <= |steps|
    ensures Shaped(ColumnsAt(steps, layer - 1), []) ==> RestRows(env, steps, layer, []) == []
  {
    if Shaped(ColumnsAt(steps, layer - 1), []) {
      RestRowsEmpty(env, steps, layer);
    }
  }

  /** What has been found is what the records before one lead to; with a limit of zero they led nowhere. */
  ghost predicate Searched(env: Env, steps: seq<StepOperation>, layer: nat, rows: seq<Row>, it: nat, found: seq<Row>, limit: int)
    requires ChainFits(steps) && 0 < layer <= |steps|
  {
    && it <= |rows| && Shaped(ColumnsAt(steps, layer - 1), rows[..it]) && Shaped(ColumnsAt(steps, layer - 1), rows[it..])
    && Shaped(ColumnsAt(steps, layer - 1), rows) && found == RestRows(env, steps, layer, rows[..it])
    && (limit == 0 ==> found == [] && FirstDown(env, steps, layer, rows) == FirstDown(env, steps, layer, rows[it..]))
  }

  lemma NothingSearched(env: Env, steps: seq<StepOperation>, layer: nat, rows: seq<Row>, limit: int)
    requires ChainFits(steps) && 0 < layer <= |steps| && Shaped(ColumnsAt(steps, layer - 1), rows)
    ensures Searched(env, steps, layer, rows, 0, [], limit)
  {
    assert rows[0..] == rows;
    RestRowsOfNothing(env, steps, layer);
  }

  /** The next record adds what it leads to, and that much is a first part of all there is. */
  lemma RecordSearched(env: Env, steps: seq<StepOperation>, layer: nat, rows: seq<Row>, it: nat, found: seq<Row>, limit: int)
    requires ChainFits(steps) && 0 < layer < |steps| && Searched(env, steps, layer, rows, it, found, limit) && it < |rows|
    ensures Shaped(ColumnsAt(steps, layer - 1), [rows[it]])
    ensures found + RestRows(env, steps, layer, [rows[it]]) <= RestRows(env, steps, layer, rows)
    ensures var first := FirstDown(env, steps, layer + 1, LayerRows(env, steps, layer, [rows[it]]));
            && (limit == 0 && first != [] ==> FirstDown(env, steps, layer, rows) == first)
            && ((limit == 0 ==> first == [] && RestRows(env, steps, layer, [rows[it]]) == []) ==>
                  Searched(env, steps, layer, rows, it + 1, found + RestRows(env, steps, layer, [rows[it]]), limit))
  {
    NextRecord(env, steps, layer, rows, it);
    var tail := rows[it..];
    assert tail[0] == rows[it] && tail[1..] == rows[it + 1..];
    FirstAndRest(ColumnsAt(steps, layer - 1), tail);
  }

  lemma AllSearched(env: Env, steps: seq<StepOperation>, layer: nat, rows: seq<Row>, found: seq<Row>, before: int, after: int, limit: int)
    requires ChainFits(steps) && 0 < layer < |steps| && Searched(env, steps, layer, rows, |rows|, found, limit) && after == before + |found|
    ensures Collected(RestRows(env, steps, layer, rows), FirstDown(env, steps, layer, rows), found, before, after, limit)
  {
    assert rows[..|rows|] == rows && rows[|rows|..] == [];
  }

  /** Goes deeper with one record at a time until the limit is reached. */
  method SearchRecords(env: Env, steps: seq<StepOperation>, layer: nat, resultNumber: ResultCounter, limit: int, rows: seq<Row>,
                       template: seq<Columns>)
    returns (found: seq<Row>)
    requires env.CachesSorted() && ChainFits(steps) && 0 < layer < |steps| && TemplatesFit(steps, template)
    requires Shaped(ColumnsAt(steps, layer - 1), rows) && resultNumber.value >= 0
    modifies resultNumber
    ensures Collected(RestRows(env, steps, layer, rows), FirstDown(env, steps, layer, rows), found,
                      old(resultNumber.value), resultNumber.value, limit)
    decreases |steps| - layer, 2
  {
    found := [];
    var it := 0;
    NothingSearched(env, steps, layer, rows, limit);
    while it < |rows|
      invariant 0 <= it <= |rows| && Searched(env, steps, layer, rows, it, found, limit)
      invariant resultNumber.value == old(resultNumber.value) + |found|
    {
      var stop;
      found, stop := SearchRecord(env, steps, layer, resultNumber, limit, rows, it, template, found);
      if stop {
        return;
      }
      it := it + 1;
    }
    AllSearched(env, steps, layer, rows, found, old(resultNumber.value), resultNumber.value, limit);
  }

  lemma NoNextLayer(env: Env, steps: seq<StepOperation>, layer: nat, row: Row, next: seq<Row>)
    requires ChainFits(steps) && 0 < layer < |steps| && Shaped(ColumnsAt(steps, layer - 1), [row])
    requires next == LayerRows(env, steps, layer, [row])
    ensures next == [] ==> RestRows(env, steps, layer, [row]) == [] && FirstDown(env, steps, layer + 1, next) == []
  {
    RestRowsOfNothing(env, steps, layer + 1);
  }

  /** After a record the search goes on with all the record leads to, or stops because the limit is reached. */
  lemma WholeOrLimit(part: seq<Row>, first: seq<Row>, values: seq<Row>, before: int, after: int, limit: int)
    requires Collected(part, first, values, before, after, limit) && before >= 0
    ensures values == [] || limit == -1 || after < limit ==> values == part && (limit == 0 ==> first == [] && part == [])
    ensures limit == 0 ==> values == first
  {
  }

  lemma StopsCollected(full: seq<Row>, all: seq<Row>, sofar: seq<Row>, part: seq<Row>, first: seq<Row>, values: seq<Row>,
                       before: int, after: int, limit: int)
    requires Collected(part, first, values, before, after, limit) && values != [] && limit != -1 && after >= limit
    requires sofar + part <= full && (limit == 0 ==> sofar == [] && (first != [] ==> all == first))
    ensures Collected(full, all, sofar + values, before - |sofar|, after, limit)
  {
    assert sofar + values <= sofar + part;
  }

  /** What there is to find below one record. */
  lemma BelowRecord(env: Env, steps: seq<StepOperation>, layer: nat, rows: seq<Row>, it: nat) returns (part: seq<Row>, first: seq<Row>)
    requires ChainFits(steps) && 0 < layer < |steps| && Shaped(ColumnsAt(steps, layer - 1), rows) && it < |rows|
    ensures Shaped(ColumnsAt(steps, layer - 1), [rows[it]]) && part == RestRows(env, steps, layer, [rows[it]])
    ensures first == FirstDown(env, steps, layer + 1, LayerRows(env, steps, layer, [rows[it]]))
    ensures LayerRows(env, steps, layer, [rows[it]]) == [] ==> part == []
  {
    assert rows[it] in rows;
    part := RestRows(env, steps, layer, [rows[it]]);
    first := FirstDown(env, steps, layer + 1, LayerRows(env, steps, layer, [rows[it]]));
    NoNextLayer(env, steps, layer, rows[it], LayerRows(env, steps, layer, [rows[it]]));
  }

  lemma RecordLeads(env: Env, steps: seq<StepOperation>, layer: nat, rows: seq<Row>, it: nat, found: seq<Row>, limit: int,
                    part: seq<Row>, first: seq<Row>, values: seq<Row>, before: int, after: int)
    requires ChainFits(steps) && 0 < layer < |steps| && Searched(env, steps, layer, rows, it, found, limit) && it < |rows|
    requires Shaped(ColumnsAt(steps, layer - 1), [rows[it]]) && before >= |found|
    requires part == RestRows(env, steps, layer, [rows[it]])
    requires first == FirstDown(env, steps, layer + 1, LayerRows(env, steps, layer, [rows[it]]))
    requires Collected(part, first, values, before, after, limit)
    ensures values == [] || limit == -1 || after < limit ==> Searched(env, steps, layer, rows, it + 1, found + values, limit)
    ensures values != [] && limit != -1 && after >= limit ==>
              Collected(RestRows(env, steps, layer, rows), FirstDown(env, steps, layer, rows), found + values, before - |found|, after, limit)
  {
    WholeOrLimit(part, first, values, before, after, limit);
    if values == [] || limit == -1 || after < limit {
      RecordSearched(env, steps, layer, rows, it, found, limit);
    } else {
      var full, all := RestRows(env, steps, layer, rows), FirstDown(env, steps, layer, rows);
      assert found + part <= full && (limit == 0 ==> found == [] && (first != [] ==> all == first)) by {
        RecordSearched(env, steps, layer, rows, it, found, limit);
      }
      StopsCollected(full, all, found, part, first, values, before, after, limit);
    }
  }

  /** Goes deeper with one record; whether the limit is reached. */
  method SearchRecord(env: Env, steps: seq<StepOperation>, layer: nat, resultNumber: ResultCounter, limit: int, rows: seq<Row>, it: nat,
                      template: seq<Columns>, found: seq<Row>)
    returns (more: seq<Row>, stop: bool)
    requires env.CachesSorted() && ChainFits(steps) && 0 < layer < |steps| && TemplatesFit(steps, template)
    requires Searched(env, steps, layer, rows, it, found, limit) && it < |rows| && resultNumber.value >= |found|
    modifies resultNumber
    ensures resultNumber.value == old(resultNumber.value) + |more| - |found|
    ensures !stop ==> Searched(env, steps, layer, rows, it + 1, more, limit)
    ensures stop ==> Collected(RestRows(env, steps, layer, rows), FirstDown(env, steps, layer, rows), more,
                               old(resultNumber.value) - |found|, resultNumber.value, limit)
    decreases |steps| - layer, 1
  {
    ghost var before := resultNumber.value;
    ghost var part, first := BelowRecord(env, steps, layer, rows, it);
    var ok, next := DepthSearchOneLayer(env, steps, layer, resultNumber, limit, [rows[it]], template);
    RecordLeads(env, steps, layer, rows, it, found, limit, part, first, next.values, before, resultNumber.value);
    if !ok || next.values == [] {
      assert next.values == [] && found + next.values == found;
      return found, false;
    }
    more := found + next.values;
    stop := limit != -1 && resultNumber.value >= limit;
  }

  // ---- the whole search ----

  /** The collected pieces, one after the other. */
  ghost function Flatten(pieces: seq<seq<Row>>): seq<Row> {
    if pieces == [] then [] else Flatten(pieces[..|pieces| - 1]) + pieces[|pieces| - 1]
  }

  lemma FlattenSnoc(pieces: seq<seq<Row>>, piece: seq<Row>)
    ensures Flatten(pieces + [piece]) == Flatten(pieces) + piece
  {
    assert (pieces + [piece])[..|pieces|] == pieces;
  }

  lemma {:induction false} FlattenPrefix(pieces: seq<seq<Row>>, n: nat)
    requires n <= |pieces|
    ensures Flatten(pieces[..n]) <= Flatten(pieces)
    decreases |pieces|
  {
    if n < |pieces| {
      FlattenPrefix(pieces[..|pieces| - 1], n);
      assert pieces[..|pieces| - 1][..n] == pieces[..n];
    } else {
      assert pieces[..n] == pieces;
    }
  }

  /** The pieces before the last one hold fewer rows than the limit. */
  ghost predicate LimitInLastPiece(pieces: seq<seq<Row>>, limit: int) {
    forall n :: 0 <= n < |pieces| ==> |Flatten(pieces[..n])| < limit
  }

  /**
   Merges the pieces and stops the piece in which the limit is reached. Later pieces would be added in
   full, so the one inner break is enough only because the limit can be reached in the last piece alone.
   */
  method MergeResults(pieces: seq<seq<Row>>, limit: int) returns (rows: seq<Row>)
    requires limit > 0 ==> LimitInLastPiece(pieces, limit)
    ensures limit > 0 ==> rows == FirstOf(Flatten(pieces), limit)
    ensures limit <= 0 ==> rows == Flatten(pieces)
  {
    rows := [];
    var counter, n := 0, 0;
    while n < |pieces|
      invariant 0 <= n <= |pieces|
      invariant limit > 0 ==> rows == FirstOf(Flatten(pieces[..n]), limit)
      invariant limit <= 0 ==> rows == Flatten(pieces[..n])
      invariant counter == |rows|
    {
      assert pieces[..n + 1] == pieces[..n] + [pieces[n]];
      FlattenSnoc(pieces[..n], pieces[n]);
      assert limit > 0 ==> rows == Flatten(pieces[..n]) && counter < limit;
      ghost var before := rows;
      var i := 0;
      while i < |pieces[n]|
        invariant 0 <= i <= |pieces[n]|
        invariant rows == before + pieces[n][..i]
        invariant counter == |rows|
        invariant limit > 0 ==> counter < limit
      {
        rows := rows + [pieces[n][i]];
        i := i + 1;
        counter := counter + 1;
        if counter == limit {
          break;
        }
      }
      assert before + pieces[n][..i] == (before + pieces[n])[..|before| + i];
      n := n + 1;
    }
    assert pieces[..n] == pieces;
  }

  function WithPiece(pieces: seq<seq<Row>>, piece: seq<Row>): seq<seq<Row>> {
    if piece == [] then pieces else pieces + [piece]
  }

  lemma LimitStillInLast(pieces: seq<seq<Row>>, piece: seq<Row>, limit: int)
    requires limit > 0 ==> LimitInLastPiece(pieces, limit) && |Flatten(pieces)| < limit
    ensures limit > 0 ==> LimitInLastPiece(pieces + [piece], limit)
  {
    forall n | 0 <= n < |pieces| + 1 && limit > 0 ensures |Flatten((pieces + [piece])[..n])| < limit {
      assert (pieces + [piece])[..n] == pieces[..n];
      assert n == |pieces| ==> pieces[..n] == pieces;
    }
  }

  lemma FlattenWith(pieces: seq<seq<Row>>, piece: seq<Row>)
    ensures Flatten(WithPiece(pieces, piece)) == Flatten(pieces) + piece
  {
    if piece != [] {
      FlattenSnoc(pieces, piece);
    }
  }

  /** What has been found so far, in pieces: all of it counted, and less than the limit. */
  ghost predicate PiecesSoFar(sofar: seq<Row>, pieces: seq<seq<Row>>, now: int, limit: int) {
    && Flatten(pieces) == sofar && now == |sofar|
    && (limit > 0 ==> now < limit && LimitInLastPiece(pieces, limit)) && (limit < 0 ==> pieces == [])
  }

  /** Everything there is, or enough of it for the limit, the last of it in the last piece. */
  ghost predicate FoundIn(full: seq<Row>, block: seq<Row>, pieces: seq<seq<Row>>, limit: int) {
    && Flatten(pieces) <= full
    && (limit > 0 && Flatten(pieces) != full ==> |Flatten(pieces)| >= limit)
    && (limit > 0 ==> LimitInLastPiece(pieces, limit))
    && (limit == 0 ==> Flatten(pieces) == block)
    && (limit < 0 ==> pieces == [])
  }

  lemma WithinFull(full: seq<Row>, sofar: seq<Row>, part: seq<Row>, rest: seq<Row>, found: seq<Row>)
    requires full == (sofar + part) + rest && found <= part
    ensures sofar + found <= full && (found == part && rest == [] ==> sofar + found == full)
  {
    assert part == found + part[|found|..];
    assert full == (sofar + found) + (part[|found|..] + rest);
  }

  lemma LimitInNewest(pieces: seq<seq<Row>>, found: seq<Row>, limit: int)
    requires limit > 0 ==> LimitInLastPiece(pieces, limit) && |Flatten(pieces)| < limit
    ensures limit > 0 ==> LimitInLastPiece(WithPiece(pieces, found), limit)
  {
    if found != [] {
      LimitStillInLast(pieces, found, limit);
    }
  }

  /** The piece in which the search stops, because of the limit or because there is no more. */
  lemma PieceStops(full: seq<Row>, block: seq<Row>, sofar: seq<Row>, part: seq<Row>, rest: seq<Row>, first: seq<Row>, found: seq<Row>,
                   pieces: seq<seq<Row>>, before: int, after: int, limit: int)
    requires full == (sofar + part) + rest && PiecesSoFar(sofar, pieces, before, limit) && before <= limit
    requires Collected(part, first, found, before, after, limit) && (after >= limit || rest == [])
    requires limit == 0 ==> sofar == [] && block == first
    ensures FoundIn(full, block, WithPiece(pieces, found), limit)
  {
    WithinFull(full, sofar, part, rest, found);
    FlattenWith(pieces, found);
    LimitInNewest(pieces, found, limit);
  }

  lemma PieceGoesOn(sofar: seq<Row>, part: seq<Row>, pieces: seq<seq<Row>>, before: int, after: int, limit: int)
    requires PiecesSoFar(sofar, pieces, before, limit) && before <= limit && after == before + |part| && (limit > 0 ==> after < limit)
    ensures PiecesSoFar(sofar + part, WithPiece(pieces, part), after, limit)
  {
    FlattenWith(pieces, part);
    LimitInNewest(pieces, part, limit);
  }

  /** The records before one have been searched. With a limit of zero none of them led to the second layer. */
  ghost predicate FirstDone(env: Env, steps: seq<StepOperation>, layer: nat, first: seq<Row>, done: nat, sofar: seq<Row>, limit: int)
    requires ChainFits(steps) && 0 < layer < |steps|
  {
    && done <= |first| && Shaped(ColumnsAt(steps, layer - 1), first) && Shaped(ColumnsAt(steps, layer - 1), first[..done])
    && Shaped(ColumnsAt(steps, layer - 1), first[done..]) && sofar == RestRows(env, steps, layer, first[..done])
    && (limit == 0 ==> sofar == [] && FirstBlock(env, steps, layer, first) == FirstBlock(env, steps, layer, first[done..]))
  }

  lemma NothingDone(env: Env, steps: seq<StepOperation>, layer: nat, first: seq<Row>, limit: int)
    requires ChainFits(steps) && 0 < layer < |steps| && Shaped(ColumnsAt(steps, layer - 1), first)
    ensures FirstDone(env, steps, layer, first, 0, [], limit)
  {
    assert first[..0] == [] && first[0..] == first;
    RestRowsEmpty(env, steps, layer);
  }

  lemma NextFirst(env: Env, steps: seq<StepOperation>, layer: nat, first: seq<Row>, done: nat, sofar: seq<Row>, limit: int)
    returns (part: seq<Row>, rest: seq<Row>)
    requires ChainFits(steps) && 0 < layer < |steps| && FirstDone(env, steps, layer, first, done, sofar, limit) && done < |first|
    ensures Shaped(ColumnsAt(steps, layer - 1), [first[done]]) && part == RestRows(env, steps, layer, [first[done]])
    ensures RestRows(env, steps, layer, first) == (sofar + part) + rest
    ensures done + 1 == |first| ==> rest == []
    ensures var next := LayerRows(env, steps, layer, [first[done]]);
            && (limit == 0 && next != [] ==> FirstBlock(env, steps, layer, first) == FirstDown(env, steps, layer + 1, next))
            && ((limit == 0 ==> next == [] && part == []) ==> FirstDone(env, steps, layer, first, done + 1, sofar + part, limit))
  {
    NextRecord(env, steps, layer, first, done);
    part := RestRows(env, steps, layer, [first[done]]);
    rest := RestRows(env, steps, layer, first[done + 1..]);
    var tail := first[done..];
    assert tail[0] == first[done] && tail[1..] == first[done + 1..];
    FirstAndRest(ColumnsAt(steps, layer - 1), tail);
    if done + 1 == |first| {
      RestRowsEmpty(env, steps, layer);
    }
  }

  /** Where the search of the first table stands: its pieces so far are what the records before one lead to. */
  ghost predicate Merging(env: Env, steps: seq<StepOperation>, layer: nat, first: seq<Row>, done: nat, sofar: seq<Row>, pieces: seq<seq<Row>>,
                          now: int, limit: int)
    requires ChainFits(steps) && 0 < layer < |steps|
  {
    FirstDone(env, steps, layer, first, done, sofar, limit) && PiecesSoFar(sofar, pieces, now, limit)
  }

  ghost predicate Found(env: Env, steps: seq<StepOperation>, layer: nat, first: seq<Row>, pieces: seq<seq<Row>>, limit: int)
    requires ChainFits(steps) && 0 < layer < |steps| && Shaped(ColumnsAt(steps, layer - 1), first)
  {
    FoundIn(RestRows(env, steps, layer, first), FirstBlock(env, steps, layer, first), pieces, limit)
  }

  /** The next record of the first table: what comes of it, and how the search stands if it goes on. */
  lemma NextPiece(env: Env, steps: seq<StepOperation>, layer: nat, first: seq<Row>, done: nat, sofar: seq<Row>, limit: int)
    returns (full: seq<Row>, block: seq<Row>, part: seq<Row>, rest: seq<Row>, next: seq<Row>, down: seq<Row>)
    requires ChainFits(steps) && 0 < layer < |steps| && FirstDone(env, steps, layer, first, done, sofar, limit) && done < |first|
    ensures full == RestRows(env, steps, layer, first) && block == FirstBlock(env, steps, layer, first)
    ensures Shaped(ColumnsAt(steps, layer - 1), [first[done]]) && part == RestRows(env, steps, layer, [first[done]])
    ensures next == LayerRows(env, steps, layer, [first[done]]) && down == FirstDown(env, steps, layer + 1, next)
    ensures full == (sofar + part) + rest && (done + 1 == |first| ==> rest == [])
    ensures next == [] ==> part == [] && down == []
    ensures limit == 0 ==> sofar == [] && (next != [] || done + 1 == |first| ==> block == down)
    ensures (limit == 0 ==> next == []) ==> FirstDone(env, steps, layer, first, done + 1, sofar + part, limit)
  {
    part, rest := NextFirst(env, steps, layer, first, done, sofar, limit);
    full, block := RestRows(env, steps, layer, first), FirstBlock(env, steps, layer, first);
    next := LayerRows(env, steps, layer, [first[done]]);
    down := FirstDown(env, steps, layer + 1, next);
    NoNextLayer(env, steps, layer, first[done], next);
  }

  /** One more record of the first table: the limit is reached, or its piece is all it leads to and the search goes on. */
  lemma PieceFound(env: Env, steps: seq<StepOperation>, layer: nat, first: seq<Row>, done: nat, sofar: seq<Row>, pieces: seq<seq<Row>>,
                   before: int, after: int, found: seq<Row>, limit: int)
    returns (part: seq<Row>, next: seq<Row>)
    requires ChainFits(steps) && 0 < layer < |steps| && Merging(env, steps, layer, first, done, sofar, pieces, before, limit)
    requires done < |first| && before <= limit && Shaped(ColumnsAt(steps, layer - 1), [first[done]])
    requires Collected(RestRows(env, steps, layer, [first[done]]),
                       FirstDown(env, steps, layer + 1, LayerRows(env, steps, layer, [first[done]])), found, before, after, limit)
    ensures next == LayerRows(env, steps, layer, [first[done]])
    ensures (next != [] && after >= limit) || done + 1 == |first| ==> Found(env, steps, layer, first, WithPiece(pieces, found), limit)
    ensures !(next != [] && after >= limit) ==>
              Merging(env, steps, layer, first, done + 1, sofar + part, WithPiece(pieces, found), after, limit)
  {
    var full, block, rest, down;
    full, block, part, rest, next, down := NextPiece(env, steps, layer, first, done, sofar, limit);
    if (next != [] && after >= limit) || done + 1 == |first| {
      PieceStops(full, block, sofar, part, rest, down, found, pieces, before, after, limit);
    }
    if !(next != [] && after >= limit) {
      PieceGoesOn(sofar, part, pieces, before, after, limit);
    }
  }

  /** Searches below one record of the first table after the other, starting at the given layer. */
  method SearchFirstTable(env: Env, steps: seq<StepOperation>, limit: int, first: seq<Row>, template: seq<Columns>, layer: nat)
    returns (pieces: seq<seq<Row>>)
    requires env.CachesSorted() && ChainFits(steps) && 0 < layer < |steps| && TemplatesFit(steps, template)
    requires Shaped(ColumnsAt(steps, layer - 1), first) && first != []
    ensures Found(env, steps, layer, first, pieces, limit)
  {
    pieces := [];
    var list := first;
    var now := new ResultCounter();
    ghost var done: nat := 0;
    ghost var sofar: seq<Row> := [];
    NothingDone(env, steps, layer, first, limit);
    while now.value <= limit
      invariant fresh(now) && done < |first| && list == first[done..]
      invariant Merging(env, steps, layer, first, done, sofar, pieces, now.value, limit)
      decreases |list|
    {
      ghost var before := now.value;
      FirstShaped(env, steps, layer, first, done, sofar, limit);
      var ok, result := DepthSearchOneLayer(env, steps, layer, now, limit, [list[0]], template);
      ghost var part, next := PieceFound(env, steps, layer, first, done, sofar, pieces, before, now.value, result.values, limit);
      list := list[1..];
      if ok {
        if result.values != [] {
          pieces := pieces + [result.values];
        }
        if now.value >= limit {
          break;
        }
      }
      if list == [] {
        break;
      }
      done, sofar := done + 1, sofar + part;
    }
  }

  lemma FirstShaped(env: Env, steps: seq<StepOperation>, layer: nat, first: seq<Row>, done: nat, sofar: seq<Row>, limit: int)
    requires ChainFits(steps) && 0 < layer < |steps| && FirstDone(env, steps, layer, first, done, sofar, limit) && done < |first|
    ensures Shaped(ColumnsAt(steps, layer - 1), [first[done]])
  {
    var _, _ := NextFirst(env, steps, layer, first, done, sofar, limit);
  }

  /** The first table of a plan or of a leaf. */
  method InitialTable(env: Env, step: StepOperation) returns (table: IntermediateResult)
    requires env.CachesSorted() && Starts(step) && StepFits(step, {})
    ensures StepReadable(step, map[], [])
    ensures fresh(table) && table.values == InitialRows(env, step)
    ensures Columns(table.idPos, table.posId) == InitialColumns(step)
  {
    match step
    case JoinNode(feed, distinct, _) =>
      assert AllReadable(feed.edges, map[], []);
      table := InitialTableOneNode(env, feed, distinct);
    case JoinTwoNodes(feed, _) =>
      table := InitialTableTwoNode(env, feed);
  }

  lemma TemplatesServe(steps: seq<StepOperation>, template: seq<Columns>)
    requires ChainFits(steps) && ReadsInPlace(steps) && |template| == |steps|
    requires forall i :: 0 <= i < |steps| ==> Prepared(steps, template, i)
    ensures TemplatesFit(steps, template)
  {
    forall i | 0 < i < |steps| ensures LayoutFits(steps, template, i) {
      assert Prepared(steps, template, i - 1);
      InPlaceServes(steps, i);
    }
  }

  /** For a chain that reads in place, the prepared layouts serve every step. */
  method PrepareTemplate(steps: seq<StepOperation>) returns (template: seq<Columns>)
    requires ChainFits(steps) && ReadsInPlace(steps)
    ensures TemplatesFit(steps, template) && template[|steps| - 1] == TemplateAt(steps, |steps| - 1)
  {
    template := GenerateResultTemplate(steps);
    TemplatesServe(steps, template);
    assert Prepared(steps, template, |steps| - 1);
  }

  /** What the limit leaves of all rows, when the first table has some. */
  ghost predicate CutTo(env: Env, steps: seq<StepOperation>, layer: nat, first: seq<Row>, limit: int, rows: seq<Row>)
    requires ChainFits(steps) && 0 < layer < |steps| && Shaped(ColumnsAt(steps, layer - 1), first)
  {
    if limit > 0 then rows == FirstOf(RestRows(env, steps, layer, first), limit)
    else if limit == 0 then rows == FirstBlock(env, steps, layer, first)
    else rows == []
  }

  lemma MergedPieces(env: Env, steps: seq<StepOperation>, layer: nat, first: seq<Row>, pieces: seq<seq<Row>>, limit: int, rows: seq<Row>)
    requires ChainFits(steps) && 0 < layer < |steps| && Shaped(ColumnsAt(steps, layer - 1), first)
    requires Found(env, steps, layer, first, pieces, limit)
    requires rows == if limit > 0 then FirstOf(Flatten(pieces), limit) else Flatten(pieces)
    ensures CutTo(env, steps, layer, first, limit, rows)
  {
  }

  /** Everything after the first table: prepare the layouts, search, merge what was found. */
  method SearchAndMerge(env: Env, steps: seq<StepOperation>, limit: int, first: seq<Row>, layer: nat) returns (table: IntermediateResult)
    requires env.CachesSorted() && ChainFits(steps) && ReadsInPlace(steps) && 0 < layer < |steps|
    requires Shaped(ColumnsAt(steps, layer - 1), first) && first != []
    ensures fresh(table) && Columns(table.idPos, table.posId) == TemplateAt(steps, |steps| - 1)
    ensures CutTo(env, steps, layer, first, limit, table.values)
  {
    var template := PrepareTemplate(steps);
    var pieces := SearchFirstTable(env, steps, limit, first, template, layer);
    table := new IntermediateResult();
    table.posId, table.idPos := template[|steps| - 1].posId, template[|steps| - 1].idPos;
    var rows := MergeResults(pieces, limit);
    MergedPieces(env, steps, layer, first, pieces, limit, rows);
    table.values := rows;
  }

  lemma NothingFirst(env: Env, steps: seq<StepOperation>, limit: int)
    requires ChainFits(steps)
    ensures StepReadable(steps[0], map[], []) && (InitialRows(env, steps[0]) == [] ==> LimitedTo(env, steps, limit, []))
  {
    InitialShape(env, steps[0]);
    RestRowsOfNothing(env, steps, 1);
  }

  lemma CutIsLimited(env: Env, steps: seq<StepOperation>, limit: int, rows: seq<Row>, layer: nat)
    requires ChainFits(steps) && |steps| > 1 && layer == 1 && StepReadable(steps[0], map[], [])
    requires Shaped(ColumnsAt(steps, layer - 1), InitialRows(env, steps[0])) && CutTo(env, steps, layer, InitialRows(env, steps[0]), limit, rows)
    ensures LimitedTo(env, steps, limit, rows)
  {
  }

  /**
   Depth-first execution with a limit, for chains that read in place. At least two steps: the first rows of
   the chain, as many as a positive limit says; for a limit of zero what the first record that gets on leads
   to. A one-step chain ignores the limit; a negative limit finds nothing.
   */
  method ExecutionDepthFirst(env: Env, steps: seq<StepOperation>, limit: int) returns (table: IntermediateResult)
    requires env.CachesSorted() && ChainFits(steps) && ReadsInPlace(steps)
    ensures fresh(table) && LimitedTo(env, steps, limit, table.values)
    ensures table.values != [] ==> Columns(table.idPos, table.posId) == TemplateAt(steps, |steps| - 1)
  {
    InitialShape(env, steps[0]);
    NothingFirst(env, steps, limit);
    var firstTable := InitialTable(env, steps[0]);
    if |steps| == 1 || firstTable.values == [] {
      FirstLayout(steps);
      RestRowsOfNothing(env, steps, 1);
      return firstTable;
    }
    var layer := 1;
    table := SearchAndMerge(env, steps, limit, firstTable.values, layer);
    CutIsLimited(env, steps, limit, table.values, layer);
  }
}
