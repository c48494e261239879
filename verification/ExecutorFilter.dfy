/**
 The remaining operators of the executor: two nodes at once, edge checks, first tables, and the
 candidate caches filled from constant edges.
 */
module ExecutorFilter {
  import opened Rdf
  import opened IdList
  import opened TableOperator
  import opened Semantics
  import opened StepSpec
  import opened Executor

  /** Writes one record once per pair; the record itself is reused for the last pair unless kept. */
  method WritePairs(newTable: IntermediateResult, record: Row, pairs: seq<(nat, nat)>)
    modifies newTable`values
    ensures newTable.values == old(newTable.values) + ExtendedByPairs(record, pairs)
  {
    ghost var before := newTable.values;
    var i := 0;
    while i < |pairs|
      invariant 0 <= i <= |pairs|
      invariant newTable.values == before + ExtendedByPairs(record, pairs[..i])
    {
      newTable.values := newTable.values + [record + [pairs[i].0, pairs[i].1]];
      i := i + 1;
    }
    assert pairs[..i] == pairs;
  }

  lemma PairListAgrees(g: Store, e: Edge, idPos: PositionValue, idPos': PositionValue, row: Row)
    requires e.info.joinMethod.TwoNode() && Readable(e, idPos, row) && Readable(e, idPos', row)
    requires forall v :: v in e.Reads() ==> idPos[v] == idPos'[v]
    ensures PairList(g, e, idPos, row) == PairList(g, e, idPos', row)
  {
    assert e.info.joinMethod.GivesS() && !e.constant.sConstant ==> e.info.s in e.Reads();
    assert e.info.joinMethod.GivesP() && !e.constant.pConstant ==> e.info.p in e.Reads();
    assert e.info.joinMethod.GivesO() && !e.constant.oConstant ==> e.info.o in e.Reads();
  }

  /** What an edge reads is where it was before columns were added. */
  ghost predicate ReadsKept(e: Edge, idPos: PositionValue, wider: PositionValue) {
    forall v :: v in e.Reads() && v in idPos ==> v in wider && wider[v] == idPos[v]
  }

  lemma TwoMoreKeepReads(feed: FeedTwoNode, idPos: PositionValue, posId: PositionValue)
    requires feed.nodeToJoin1 !in feed.edge.Reads() && feed.nodeToJoin2 !in feed.edge.Reads()
    ensures ReadsKept(feed.edge, idPos, StepIdPos(JoinTwoNodes(feed, true), idPos, posId))
  {
  }

  method JoinRecordTwoNodes(env: Env, newTable: IntermediateResult, record: Row, feed: FeedTwoNode, ghost idPos: PositionValue)
    requires feed.edge.info.joinMethod.TwoNode() && Readable(feed.edge, idPos, record)
    requires ReadsKept(feed.edge, idPos, newTable.idPos)
    modifies newTable`values
    ensures newTable.values == old(newTable.values) + JoinTwoNodesRow(env, feed, idPos, record)
  {
    var pairs := ExtendRecordTwoNode(env, feed, newTable.idPos, record);
    PairListAgrees(env.g, feed.edge, idPos, newTable.idPos, record);
    WritePairs(newTable, record, pairs);
  }

  /** The still empty result table of joining two nodes. */
  method WithTwoMoreColumns(oldTable: IntermediateResult, feed: FeedTwoNode) returns (newTable: IntermediateResult)
    ensures fresh(newTable) && newTable.values == []
    ensures newTable.idPos == StepIdPos(JoinTwoNodes(feed, true), oldTable.idPos, oldTable.posId)
    ensures newTable.posId == StepPosId(JoinTwoNodes(feed, true), oldTable.posId)
  {
    newTable := new IntermediateResult.OnlyPositionCopy(oldTable);
    var _ := newTable.AddNewNode(feed.nodeToJoin1);
    var _ := newTable.AddNewNode(feed.nodeToJoin2);
  }

  /** One round: the record is joined, and erased from the old table unless that is kept. */
  method JoinNextTwoNodes(env: Env, newTable: IntermediateResult, oldTable: IntermediateResult, feed: FeedTwoNode, remainOld: bool, it: nat,
                          ghost input: seq<Row>, ghost done: nat, ghost idPos: PositionValue)
    returns (next: nat)
    requires newTable != oldTable && done < |input| && it == (if remainOld then done else 0)
    requires oldTable.values == Remaining(input, done, remainOld)
    requires feed.edge.info.joinMethod.TwoNode() && Readable(feed.edge, idPos, input[done])
    requires ReadsKept(feed.edge, idPos, newTable.idPos)
    modifies newTable`values, oldTable`values
    ensures newTable.values == old(newTable.values) + JoinTwoNodesRow(env, feed, idPos, input[done])
    ensures oldTable.values == Remaining(input, done + 1, remainOld) && next == (if remainOld then done + 1 else 0)
  {
    JoinRecordTwoNodes(env, newTable, oldTable.values[it], feed, idPos);
    next := it;
    if !remainOld {
      oldTable.values := oldTable.values[..it] + oldTable.values[it + 1..];
    } else {
      next := it + 1;
    }
  }

  /** Joins every record of the old table, which is used up unless it is kept. */
  method JoinEachTwoNodes(env: Env, newTable: IntermediateResult, oldTable: IntermediateResult, feed: FeedTwoNode, remainOld: bool,
                          ghost idPos: PositionValue)
    requires newTable != oldTable && newTable.values == [] && ReadsKept(feed.edge, idPos, newTable.idPos)
    requires AllStepReadable(JoinTwoNodes(feed, remainOld), idPos, oldTable.values)
    modifies newTable`values, oldTable`values
    ensures newTable.values == StepRows(env, JoinTwoNodes(feed, remainOld), idPos, old(oldTable.values))
    ensures oldTable.values == if remainOld then old(oldTable.values) else []
  {
    ghost var step := JoinTwoNodes(feed, remainOld);
    ghost var input := oldTable.values;
    var it := 0;
    ghost var done: nat := 0;
    while it < |oldTable.values|
      invariant Joining(env, step, idPos, input, remainOld, done, it, newTable.values, oldTable.values)
      decreases |input| - done
    {
      JoiningNext(env, step, idPos, input, remainOld, done, it, newTable.values, oldTable.values);
      it := JoinNextTwoNodes(env, newTable, oldTable, feed, remainOld, it, input, done, idPos);
      done := done + 1;
    }
    JoiningEnds(env, step, idPos, input, remainOld, done, it, newTable.values, oldTable.values);
  }

  /** Joins two nodes along one edge. */
  method JoinTwoNode(env: Env, feed: FeedTwoNode, oldTable: IntermediateResult, remainOld: bool)
    returns (newTable: IntermediateResult)
    requires AllStepReadable(JoinTwoNodes(feed, remainOld), oldTable.idPos, oldTable.values)
    requires feed.nodeToJoin1 !in feed.edge.Reads() && feed.nodeToJoin2 !in feed.edge.Reads()
    modifies oldTable`values
    ensures fresh(newTable)
    ensures newTable.values == StepRows(env, JoinTwoNodes(feed, remainOld), oldTable.idPos, old(oldTable.values))
    ensures newTable.idPos == StepIdPos(JoinTwoNodes(feed, remainOld), oldTable.idPos, oldTable.posId)
    ensures newTable.posId == StepPosId(JoinTwoNodes(feed, remainOld), oldTable.posId)
    ensures oldTable.values == if remainOld then old(oldTable.values) else []
  {
    newTable := WithTwoMoreColumns(oldTable, feed);
    TwoMoreKeepReads(feed, oldTable.idPos, oldTable.posId);
    JoinEachTwoNodes(env, newTable, oldTable, feed, remainOld, oldTable.idPos);
  }

  ghost predicate AllCheckable(e: Edge, idPos: PositionValue, rows: seq<Row>) {
    forall row :: row in rows ==> Checkable(e, idPos, row)
  }

  /** The rows that satisfy an edge, in order. */
  ghost function Passing(g: Store, e: Edge, idPos: PositionValue, rows: seq<Row>): (r: seq<Row>)
    requires AllCheckable(e, idPos, rows)
    ensures forall row :: row in r ==> row in rows
  {
    if rows == [] then [] else
      var rest := Passing(g, e, idPos, rows[1..]);
      if PassesEdge(g, e, idPos, rows[0]) then [rows[0]] + rest else rest
  }

  lemma {:induction false} PassingSnoc(g: Store, e: Edge, idPos: PositionValue, rows: seq<Row>, row: Row)
    requires AllCheckable(e, idPos, rows) && Checkable(e, idPos, row)
    ensures AllCheckable(e, idPos, rows + [row])
    ensures Passing(g, e, idPos, rows + [row]) == Passing(g, e, idPos, rows) + (if PassesEdge(g, e, idPos, row) then [row] else [])
  {
    if rows == [] {
      assert rows + [row] == [row];
    } else {
      assert (rows + [row])[1..] == rows[1..] + [row];
      PassingSnoc(g, e, idPos, rows[1..], row);
    }
  }

  /** Where a filter stands: some rows are dealt with, the passing ones kept, and all of them gone from the list unless it is kept. */
  ghost predicate Filtering(g: Store, e: Edge, idPos: PositionValue, rows: seq<Row>, remainOld: bool,
                            done: nat, it: nat, kept: seq<Row>, left: seq<Row>)
    requires AllCheckable(e, idPos, rows)
  {
    && done <= |rows| && it == (if remainOld then done else 0) && left == Remaining(rows, done, remainOld)
    && kept == Passing(g, e, idPos, rows[..done])
  }

  function Without(left: seq<Row>, it: nat, remainOld: bool): seq<Row>
    requires it < |left|
  {
    if remainOld then left else left[..it] + left[it + 1..]
  }

  lemma FilterNext(g: Store, e: Edge, idPos: PositionValue, rows: seq<Row>, remainOld: bool, done: nat, it: nat, kept: seq<Row>, left: seq<Row>)
    requires AllCheckable(e, idPos, rows) && Filtering(g, e, idPos, rows, remainOld, done, it, kept, left) && it < |left|
    ensures done < |rows| && left[it] == rows[done] && Checkable(e, idPos, left[it])
    ensures Filtering(g, e, idPos, rows, remainOld, done + 1, if remainOld then it + 1 else it,
                      if PassesEdge(g, e, idPos, left[it]) then kept + [left[it]] else kept, Without(left, it, remainOld))
  {
    assert left[it] == rows[done] && rows[done] in rows;
    PassingSnoc(g, e, idPos, rows[..done], rows[done]);
    assert rows[..done + 1] == rows[..done] + [rows[done]];
  }

  lemma FilterEnds(g: Store, e: Edge, idPos: PositionValue, rows: seq<Row>, remainOld: bool, done: nat, it: nat, kept: seq<Row>, left: seq<Row>)
    requires AllCheckable(e, idPos, rows) && Filtering(g, e, idPos, rows, remainOld, done, it, kept, left) && it >= |left|
    ensures kept == Passing(g, e, idPos, rows) && left == if remainOld then rows else []
  {
    assert rows[..|rows|] == rows;
  }

  /** Keeps the rows whose variable is on one list, looked up once because the edge reads constants only. */
  method FilterAVariableOnIDList(ids: seq<nat>, id: nat, rows: seq<Row>, idPos: PositionValue, remainOld: bool, ghost g: Store, ghost e: Edge)
    returns (kept: seq<Row>, left: seq<Row>)
    requires AllCheckable(e, idPos, rows) && e.Reads() == {} && e.info.joinMethod.OneNode()
    requires !e.constant.FilteredIsConstant(e.info) && e.info.GetVarToFilter() == id
    requires ids == EdgeList(g, e, map[], [])
    ensures kept == Passing(g, e, idPos, rows)
    ensures left == if remainOld then rows else []
  {
    kept, left := [], rows;
    var it := 0;
    ghost var done: nat := 0;
    while it < |left|
      invariant Filtering(g, e, idPos, rows, remainOld, done, it, kept, left)
      decreases |rows| - done
    {
      var record := left[it];
      FilterNext(g, e, idPos, rows, remainOld, done, it, kept, left);
      EdgeListAgrees'(g, e, map[], [], idPos, record);
      if record[idPos[id]] in ids {
        kept := kept + [record];
      }
      if !remainOld {
        left := left[..it] + left[it + 1..];
      } else {
        it := it + 1;
      }
      done := done + 1;
    }
    FilterEnds(g, e, idPos, rows, remainOld, done, it, kept, left);
  }

  /** An edge that reads constants only has one list for all records. */
  lemma EdgeListAgrees'(g: Store, e: Edge, idPos: PositionValue, row: Row, idPos': PositionValue, row': Row)
    requires e.info.joinMethod.OneNode() && e.Reads() == {}
    ensures Readable(e, idPos, row) && Readable(e, idPos', row')
    ensures EdgeList(g, e, idPos, row) == EdgeList(g, e, idPos', row')
  {
    var m := e.info.joinMethod;
    assert m.GivesS() && !e.constant.sConstant ==> e.info.s in e.Reads();
    assert m.GivesP() && !e.constant.pConstant ==> e.info.p in e.Reads();
    assert m.GivesO() && !e.constant.oConstant ==> e.info.o in e.Reads();
  }

  lemma ConstantToVarReads(e: Edge)
    requires e.info.joinMethod.OneNode()
    ensures e.constant.ConstantToVar(e.info) <==> e.Reads() == {}
  {
    var m := e.info.joinMethod;
    assert m.GivesS() && !e.constant.sConstant ==> e.info.s in e.Reads();
    assert m.GivesP() && !e.constant.pConstant ==> e.info.p in e.Reads();
    assert m.GivesO() && !e.constant.oConstant ==> e.info.o in e.Reads();
  }

  /** Keeps the rows that satisfy an edge whose positions are all known already. */
  method OneEdgeConstraintFilter(g: Store, e: Edge, rows: seq<Row>, idPos: PositionValue, remainOld: bool)
    returns (kept: seq<Row>, left: seq<Row>)
    requires NotAllConstant(e) && AllCheckable(e, idPos, rows)
    ensures kept == Passing(g, e, idPos, rows)
    ensures left == if remainOld then rows else []
  {
    ConstantToVarReads(e);
    if e.constant.ConstantToVar(e.info) {
      EdgeListAgrees'(g, e, map[], [], map[], []);
      var validate := EdgeList(g, e, map[], []);
      kept, left := FilterAVariableOnIDList(validate, e.info.GetVarToFilter(), rows, idPos, remainOld, g, e);
      return;
    }
    kept, left := FilterEachRecord(g, e, rows, idPos, remainOld);
  }

  /** Whether a record satisfies an edge: its value at the node to filter is on the edge's list. */
  method CheckRecord(g: Store, e: Edge, idPos: PositionValue, record: Row) returns (passes: bool)
    requires NotAllConstant(e) && Checkable(e, idPos, record) && !e.constant.ConstantToVar(e.info)
    ensures passes == PassesEdge(g, e, idPos, record)
  {
    ConstantToVarReads(e);
    var edgeList := EdgeList(g, e, idPos, record);
    var value := if e.constant.FilteredIsConstant(e.info) then e.info.GetVarToFilter() else record[idPos[e.info.GetVarToFilter()]];
    passes := value in edgeList;
  }

  method FilterEachRecord(g: Store, e: Edge, rows: seq<Row>, idPos: PositionValue, remainOld: bool)
    returns (kept: seq<Row>, left: seq<Row>)
    requires NotAllConstant(e) && AllCheckable(e, idPos, rows) && !e.constant.ConstantToVar(e.info)
    ensures kept == Passing(g, e, idPos, rows)
    ensures left == if remainOld then rows else []
  {
    kept, left := [], rows;
    var it := 0;
    ghost var done: nat := 0;
    while it < |left|
      invariant Filtering(g, e, idPos, rows, remainOld, done, it, kept, left)
      decreases |rows| - done
    {
      var record := left[it];
      FilterNext(g, e, idPos, rows, remainOld, done, it, kept, left);
      var passes := CheckRecord(g, e, idPos, record);
      if passes {
        kept := kept + [record];
      }
      if !remainOld {
        left := left[..it] + left[it + 1..];
      } else {
        it := it + 1;
      }
      done := done + 1;
    }
    FilterEnds(g, e, idPos, rows, remainOld, done, it, kept, left);
  }

  ghost predicate EdgesCheckable(edges: seq<Edge>, idPos: PositionValue, rows: seq<Row>) {
    forall e :: e in edges ==> AllCheckable(e, idPos, rows)
  }

  lemma StillCheckable(g: Store, edges: seq<Edge>, idPos: PositionValue, rows: seq<Row>)
    requires EdgesCheckable(edges, idPos, rows) && edges != []
    ensures AllCheckable(edges[0], idPos, rows)
    ensures EdgesCheckable(edges[1..], idPos, Passing(g, edges[0], idPos, rows))
  {
    assert AllCheckable(edges[0], idPos, rows);
    forall e | e in edges[1..] ensures AllCheckable(e, idPos, Passing(g, edges[0], idPos, rows)) {
      assert e in edges && AllCheckable(e, idPos, rows);
    }
  }

  /** Filtering by the edges one after the other. */
  ghost function PassingAll(g: Store, edges: seq<Edge>, idPos: PositionValue, rows: seq<Row>): seq<Row>
    requires EdgesCheckable(edges, idPos, rows)
  {
    if edges == [] then rows else
      assert AllCheckable(edges[0], idPos, rows);
      StillCheckable(g, edges, idPos, rows);
      PassingAll(g, edges[1..], idPos, Passing(g, edges[0], idPos, rows))
  }

  ghost predicate PassesEdges(g: Store, edges: seq<Edge>, idPos: PositionValue, row: Row)
    requires forall e :: e in edges ==> Checkable(e, idPos, row)
  {
    forall e :: e in edges ==> PassesEdge(g, e, idPos, row)
  }

  lemma PassesEdgesCons(g: Store, edges: seq<Edge>, idPos: PositionValue, row: Row)
    requires edges != [] && forall e :: e in edges ==> Checkable(e, idPos, row)
    ensures PassesEdges(g, edges, idPos, row) <==> PassesEdge(g, edges[0], idPos, row) && PassesEdges(g, edges[1..], idPos, row)
  {
    assert edges == [edges[0]] + edges[1..];
  }

  /** Filtering a whole table edge by edge is filtering each record by all edges. */
  lemma {:induction false} PassingAllOne(g: Store, edges: seq<Edge>, idPos: PositionValue, row: Row)
    requires EdgesCheckable(edges, idPos, [row])
    ensures forall e :: e in edges ==> Checkable(e, idPos, row)
    ensures PassingAll(g, edges, idPos, [row]) == if PassesEdges(g, edges, idPos, row) then [row] else []
    decreases |edges|
  {
    assert row in [row];
    forall e | e in edges ensures Checkable(e, idPos, row) {
      assert AllCheckable(e, idPos, [row]);
    }
    if edges != [] {
      StillCheckable(g, edges, idPos, [row]);
      PassesEdgesCons(g, edges, idPos, row);
      PassingOne(g, edges[0], idPos, row);
      if PassesEdge(g, edges[0], idPos, row) {
        PassingAllOne(g, edges[1..], idPos, row);
      } else {
        PassingAllEmpty(g, edges[1..], idPos);
      }
    }
  }

  lemma PassingOne(g: Store, e: Edge, idPos: PositionValue, row: Row)
    requires Checkable(e, idPos, row)
    ensures AllCheckable(e, idPos, [row])
    ensures Passing(g, e, idPos, [row]) == if PassesEdge(g, e, idPos, row) then [row] else []
  {
    assert [row][1..] == [];
  }

  lemma {:induction false} PassingAllEmpty(g: Store, edges: seq<Edge>, idPos: PositionValue)
    ensures EdgesCheckable(edges, idPos, [])
    ensures PassingAll(g, edges, idPos, []) == []
    decreases |edges|
  {
    if edges != [] {
      StillCheckable(g, edges, idPos, []);
      PassingAllEmpty(g, edges[1..], idPos);
    }
  }

  lemma {:induction false} PassingAppend(g: Store, e: Edge, idPos: PositionValue, a: seq<Row>, b: seq<Row>)
    requires AllCheckable(e, idPos, a) && AllCheckable(e, idPos, b)
    ensures AllCheckable(e, idPos, a + b)
    ensures Passing(g, e, idPos, a + b) == Passing(g, e, idPos, a) + Passing(g, e, idPos, b)
  {
    if a == [] {
      assert a + b == b;
    } else {
      assert (a + b)[1..] == a[1..] + b;
      PassingAppend(g, e, idPos, a[1..], b);
    }
  }

  lemma {:induction false} PassingAllAppend(g: Store, edges: seq<Edge>, idPos: PositionValue, a: seq<Row>, b: seq<Row>)
    requires EdgesCheckable(edges, idPos, a) && EdgesCheckable(edges, idPos, b)
    ensures EdgesCheckable(edges, idPos, a + b)
    ensures PassingAll(g, edges, idPos, a + b) == PassingAll(g, edges, idPos, a) + PassingAll(g, edges, idPos, b)
    decreases |edges|
  {
    forall e | e in edges ensures AllCheckable(e, idPos, a + b) {
      assert AllCheckable(e, idPos, a) && AllCheckable(e, idPos, b);
    }
    if edges != [] {
      PassingAppend(g, edges[0], idPos, a, b);
      StillCheckable(g, edges, idPos, a);
      StillCheckable(g, edges, idPos, b);
      PassingAllAppend(g, edges[1..], idPos, Passing(g, edges[0], idPos, a), Passing(g, edges[0], idPos, b));
    }
  }

  lemma {:induction false} PassingAllIsStep(env: Env, feed: FeedOneNode, remainOld: bool, idPos: PositionValue, rows: seq<Row>)
    requires EdgesCheckable(feed.edges, idPos, rows)
    ensures AllStepReadable(EdgeCheck(feed, remainOld), idPos, rows)
    ensures PassingAll(env.g, feed.edges, idPos, rows) == StepRows(env, EdgeCheck(feed, remainOld), idPos, rows)
    decreases |rows|
  {
    forall row | row in rows ensures StepReadable(EdgeCheck(feed, remainOld), idPos, row) {
      forall e | e in feed.edges ensures Checkable(e, idPos, row) {
        assert AllCheckable(e, idPos, rows);
      }
    }
    if rows == [] {
      PassingAllEmpty(env.g, feed.edges, idPos);
    } else {
      var first, rest := [rows[0]], rows[1..];
      assert rows == first + rest;
      forall e | e in feed.edges ensures AllCheckable(e, idPos, first) && AllCheckable(e, idPos, rest) {
        assert AllCheckable(e, idPos, rows);
      }
      PassingAllOne(env.g, feed.edges, idPos, rows[0]);
      PassingAllAppend(env.g, feed.edges, idPos, first, rest);
      PassingAllIsStep(env, feed, remainOld, idPos, rest);
    }
  }

  predicate NotAllConstant(e: Edge) {
    e.info.joinMethod.OneNode() && !(e.constant.ConstantToVar(e.info) && e.constant.FilteredIsConstant(e.info))
  }

  /** Checks all edges of a step, whole table by whole table. */
  method ANodeEdgesConstraintFilter(env: Env, feed: FeedOneNode, oldTable: IntermediateResult, remainOld: bool)
    returns (newTable: IntermediateResult)
    requires EdgesCheckable(feed.edges, oldTable.idPos, oldTable.values)
    requires forall e :: e in feed.edges ==> NotAllConstant(e)
    modifies oldTable`values
    ensures fresh(newTable) && newTable.idPos == oldTable.idPos && newTable.posId == oldTable.posId
    ensures AllStepReadable(EdgeCheck(feed, remainOld), oldTable.idPos, old(oldTable.values))
    ensures newTable.values == StepRows(env, EdgeCheck(feed, remainOld), oldTable.idPos, old(oldTable.values))
    ensures oldTable.values == if remainOld || feed.edges == [] then old(oldTable.values) else []
  {
    newTable := new IntermediateResult.OnlyPositionCopy(oldTable);
    var content, i := oldTable.values, 0;
    while i < |feed.edges|
      invariant 0 <= i <= |feed.edges|
      invariant newTable.idPos == oldTable.idPos && newTable.posId == oldTable.posId
      invariant i == 0 ==> content == oldTable.values
      invariant oldTable.values == if remainOld || i == 0 then old(oldTable.values) else []
      invariant EdgesCheckable(feed.edges[i..], oldTable.idPos, content)
      invariant PassingAll(env.g, feed.edges[i..], oldTable.idPos, content)
             == PassingAll(env.g, feed.edges, oldTable.idPos, old(oldTable.values))
    {
      var e := feed.edges[i];
      assert feed.edges[i..][0] == e && feed.edges[i..][1..] == feed.edges[i + 1..];
      assert AllCheckable(e, oldTable.idPos, content);
      StillCheckable(env.g, feed.edges[i..], oldTable.idPos, content);
      var kept, left := OneEdgeConstraintFilter(env.g, e, content, oldTable.idPos, remainOld);
      if i == 0 {
        oldTable.values := left;
      }
      content := kept;
      i := i + 1;
    }
    assert feed.edges[i..] == [];
    newTable.values := content;
    PassingAllIsStep(env, feed, remainOld, oldTable.idPos, old(oldTable.values));
  }

  /** One record per id. */
  method ConvertToTable(ids: seq<nat>) returns (rows: seq<Row>)
    ensures rows == Extended([], ids)
  {
    rows := [];
    var i := 0;
    while i < |ids|
      invariant 0 <= i <= |ids|
      invariant rows == Extended([], ids[..i])
    {
      var record: Row := [ids[i]];
      rows := rows + [record];
      assert rows == Extended([], ids[..i + 1]) by {
        assert forall k :: 0 <= k <= i ==> rows[k] == Extended([], ids[..i + 1])[k];
      }
      i := i + 1;
    }
    assert ids[..i] == ids;
  }

  /** The first table of a plan that starts with one node. */
  method InitialTableOneNode(env: Env, feed: FeedOneNode, distinct: bool) returns (initTable: IntermediateResult)
    requires env.CachesSorted() && DuplicateFree(feed.edges, distinct) && AllReadable(feed.edges, map[], [])
    ensures fresh(initTable)
    ensures initTable.values == InitialRows(env, JoinNode(feed, distinct, false))
    ensures initTable.idPos == InitialIdPos(JoinNode(feed, distinct, false))
    ensures initTable.posId == InitialPosId(JoinNode(feed, distinct, false))
  {
    initTable := new IntermediateResult();
    var node := feed.nodeToJoin;
    var _ := initTable.AddNewNode(node);
    if feed.edges != [] {
      var list := FirstCandidates(env, feed, initTable.idPos, distinct);
      initTable.values := ConvertToTable(list);
    } else if node in env.caches {
      initTable.values := ConvertToTable(env.caches[node]);
    } else {
      initTable.values := ConvertToTable(SortedIds(env.ScanIds(node)));
    }
  }

  method FirstCandidates(env: Env, feed: FeedOneNode, idPos: PositionValue, distinct: bool) returns (ids: seq<nat>)
    requires env.CachesSorted() && DuplicateFree(feed.edges, distinct) && AllReadable(feed.edges, map[], [])
    ensures ids == Candidates(env, feed.edges, feed.nodeToJoin, map[], [])
  {
    forall e | e in feed.edges ensures Readable(e, idPos, []) {
      assert Readable(e, map[], []);
    }
    var list := ExtendRecordOneNode(env, feed.edges, idPos, feed.nodeToJoin, distinct, []);
    CandidatesAgree(env, feed.edges, feed.nodeToJoin, map[], idPos, []);
    ids := list.ids;
  }

  /** The first table of a plan that starts with two nodes. */
  method InitialTableTwoNode(env: Env, feed: FeedTwoNode) returns (initTable: IntermediateResult)
    requires feed.edge.info.joinMethod.TwoNode() && Readable(feed.edge, map[], [])
    ensures fresh(initTable)
    ensures initTable.values == InitialRows(env, JoinTwoNodes(feed, false))
    ensures initTable.idPos == InitialIdPos(JoinTwoNodes(feed, false))
    ensures initTable.posId == InitialPosId(JoinTwoNodes(feed, false))
  {
    var empty := new IntermediateResult();
    initTable := WithTwoMoreColumns(empty, feed);
    JoinRecordTwoNodes(env, initTable, [], feed, map[]);
  }

  class IDCaches {
    var lists: map<nat, seq<nat>>
  }

  /** One constant edge: start the node's cache with its list, or narrow the cache down to it. */
  method AddConstantCandidates(g: Store, e: Edge, target: nat, caches: IDCaches)
    requires e.info.joinMethod.OneNode() && e.Reads() == {}
    requires target in caches.lists ==> StrictlyIncreasing(caches.lists[target])
    modifies caches
    ensures Readable(e, map[], [])
    ensures caches.lists == old(caches.lists)[target := if target in old(caches.lists)
                              then Intersection(old(caches.lists)[target], EdgeList(g, e, map[], []))
                              else EdgeList(g, e, map[], [])]
    ensures StrictlyIncreasing(caches.lists[target])
  {
    EdgeListIncreasing(g, e, map[], []);
    var edgeList := EdgeList(g, e, map[], []);
    var list := new IDList();
    var strategy: Strategy := *;
    if target !in caches.lists {
      UpdateIDList(list, edgeList, false, strategy);
    } else {
      list.ids := caches.lists[target];
      UpdateIDList(list, edgeList, true, strategy);
    }
    caches.lists := caches.lists[target := list.ids];
  }

  /** What the constant edges of a node leave of its candidate cache. */
  ghost predicate CachedAfter(g: Store, edges: seq<Edge>, before: map<nat, seq<nat>>, target: nat, x: nat)
    requires AllReadable(edges, map[], [])
  {
    (target in before ==> x in before[target]) && OnAllLists(g, edges, map[], [], x)
  }

  /** What the caches are once some constant edges of a node have been added. */
  ghost predicate CachedSoFar(g: Store, edges: seq<Edge>, before: map<nat, seq<nat>>, node: nat, lists: map<nat, seq<nat>>) {
    && AllReadable(edges, map[], [])
    && (forall v :: v in lists ==> StrictlyIncreasing(lists[v]))
    && (if edges == [] then lists == before
        else && lists.Keys == before.Keys + {node}
             && (forall v :: v in before && v != node ==> lists[v] == before[v])
             && (forall x :: x in lists[node] <==> CachedAfter(g, edges, before, node, x)))
  }

  /** All constant edges of a node: its cache becomes the ids that every one of them, and the old cache, allows. */
  method CacheConstantCandidates(g: Store, feed: FeedOneNode, caches: IDCaches)
    requires forall e :: e in feed.edges ==> e.info.joinMethod.OneNode() && e.Reads() == {}
    requires forall v :: v in caches.lists ==> StrictlyIncreasing(caches.lists[v])
    modifies caches
    ensures AllReadable(feed.edges, map[], [])
    ensures CachedSoFar(g, feed.edges, old(caches.lists), feed.nodeToJoin, caches.lists)
  {
    var node, i := feed.nodeToJoin, 0;
    ghost var before := caches.lists;
    assert AllReadable(feed.edges, map[], []);
    assert feed.edges[..0] == [];
    while i < |feed.edges|
      invariant 0 <= i <= |feed.edges|
      invariant CachedSoFar(g, feed.edges[..i], before, node, caches.lists)
    {
      var e := feed.edges[i];
      AddNextCandidates(g, e, node, caches, feed.edges[..i], before);
      assert feed.edges[..i + 1] == feed.edges[..i] + [e];
      i := i + 1;
    }
    assert feed.edges[..i] == feed.edges;
  }

  method AddNextCandidates(g: Store, e: Edge, node: nat, caches: IDCaches, ghost edges: seq<Edge>, ghost before: map<nat, seq<nat>>)
    requires e.info.joinMethod.OneNode() && e.Reads() == {} && CachedSoFar(g, edges, before, node, caches.lists)
    modifies caches
    ensures CachedSoFar(g, edges + [e], before, node, caches.lists)
  {
    ghost var lists := caches.lists;
    AddConstantCandidates(g, e, node, caches);
    CachedNext(g, edges, e, before, node, lists, caches.lists);
  }

  lemma CachedNext(g: Store, edges: seq<Edge>, e: Edge, before: map<nat, seq<nat>>, node: nat, lists: map<nat, seq<nat>>, after: map<nat, seq<nat>>)
    requires CachedSoFar(g, edges, before, node, lists) && e.info.joinMethod.OneNode() && Readable(e, map[], [])
    requires after == lists[node := if node in lists then Intersection(lists[node], EdgeList(g, e, map[], [])) else EdgeList(g, e, map[], [])]
    requires StrictlyIncreasing(after[node])
    ensures CachedSoFar(g, edges + [e], before, node, after)
  {
    CachedAfterSnoc(g, edges, e, before, node);
    CachedMembers(g, edges, e, before, node, lists, after);
  }

  lemma CachedMembers(g: Store, edges: seq<Edge>, e: Edge, before: map<nat, seq<nat>>, node: nat, lists: map<nat, seq<nat>>, after: map<nat, seq<nat>>)
    requires CachedSoFar(g, edges, before, node, lists) && e.info.joinMethod.OneNode() && Readable(e, map[], [])
    requires after == lists[node := if node in lists then Intersection(lists[node], EdgeList(g, e, map[], [])) else EdgeList(g, e, map[], [])]
    ensures forall x :: x in after[node] <==> CachedAfter(g, edges, before, node, x) && x in EdgeList(g, e, map[], [])
  {
  }

  lemma CachedAfterSnoc(g: Store, edges: seq<Edge>, e: Edge, before: map<nat, seq<nat>>, target: nat)
    requires AllReadable(edges, map[], []) && e.info.joinMethod.OneNode() && Readable(e, map[], [])
    ensures AllReadable(edges + [e], map[], [])
    ensures forall x :: CachedAfter(g, edges + [e], before, target, x) <==>
              CachedAfter(g, edges, before, target, x) && x in EdgeList(g, e, map[], [])
  {
    assert forall e' :: e' in edges + [e] <==> e' in edges || e' == e;
  }
}
