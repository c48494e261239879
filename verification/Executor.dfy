/**
 The table operators of the executor: extend each row by one or two variables, or filter it by
 edges. Unless told to keep it, an operator consumes its input table row by row.
 */
module Executor {
  import opened Rdf
  import opened IdList
  import opened TableOperator
  import opened Semantics
  import opened StepSpec
  import opened JoinCounts

  /** Reading a record through a position map that has grown by a column the edges do not read. */
  lemma EdgeListAgrees(g: Store, e: Edge, idPos: PositionValue, idPos': PositionValue, row: Row)
    requires e.info.joinMethod.OneNode() && Readable(e, idPos, row) && Readable(e, idPos', row)
    requires forall v :: v in e.Reads() ==> idPos[v] == idPos'[v]
    ensures EdgeList(g, e, idPos, row) == EdgeList(g, e, idPos', row)
  {
    var m := e.info.joinMethod;
    assert m.GivesS() && !e.constant.sConstant ==> e.info.s in e.Reads();
    assert m.GivesP() && !e.constant.pConstant ==> e.info.p in e.Reads();
    assert m.GivesO() && !e.constant.oConstant ==> e.info.o in e.Reads();
  }

  lemma CandidatesAgree(env: Env, edges: seq<Edge>, id: nat, idPos: PositionValue, idPos': PositionValue, row: Row)
    requires AllReadable(edges, idPos, row) && AllReadable(edges, idPos', row)
    requires forall e, v :: e in edges && v in e.Reads() ==> idPos[v] == idPos'[v]
    ensures Candidates(env, edges, id, idPos, row) == Candidates(env, edges, id, idPos', row)
  {
    forall e | e in edges ensures EdgeList(env.g, e, idPos, row) == EdgeList(env.g, e, idPos', row) {
      assert Readable(e, idPos, row);
      EdgeListAgrees(env.g, e, idPos, idPos', row);
    }
    forall x ensures x in Candidates(env, edges, id, idPos, row) <==> x in Candidates(env, edges, id, idPos', row) {
      InCandidates(env, edges, id, idPos, row, x);
      InCandidates(env, edges, id, idPos', row, x);
    }
    InCandidates(env, edges, id, idPos, row, 0);
    InCandidates(env, edges, id, idPos', row, 0);
    SortedUnique(Candidates(env, edges, id, idPos, row), Candidates(env, edges, id, idPos', row));
  }

  /** A list of one-id lookups is duplicate free only if the caller asks for distinct ids. */
  predicate DuplicateFree(edges: seq<Edge>, distinct: bool) {
    distinct || forall e :: e in edges ==> e.info.joinMethod.GivesTwo()
  }

  /** The candidates of a new node for one record: intersect the edges' lists, then the node's cache. */
  method ExtendRecordOneNode(env: Env, edges: seq<Edge>, idPos: PositionValue, id: nat, distinct: bool, row: Row)
    returns (list: IDList)
    requires env.CachesSorted() && AllReadable(edges, idPos, row) && DuplicateFree(edges, distinct)
    ensures fresh(list) && list.ids == Candidates(env, edges, id, idPos, row)
  {
    list := new IDList();
    var prepared, i := false, 0;
    while i < |edges|
      invariant 0 <= i <= |edges| && (prepared <==> i > 0)
      invariant fresh(list) && StrictlyIncreasing(list.ids)
      invariant !prepared ==> list.ids == []
      invariant prepared ==> forall x :: x in list.ids <==> OnAllLists(env.g, edges[..i], idPos, row, x)
    {
      var e := edges[i];
      assert edges[..i + 1] == edges[..i] + [e];
      if !(prepared && list.ids == []) {
        assert Readable(e, idPos, row);
        var edgeList := EdgeList(env.g, e, idPos, row);
        EdgeListIncreasing(env.g, e, idPos, row);
        var strategy: Strategy := *;
        UpdateIDList(list, edgeList, prepared, strategy);
      }
      forall x ensures OnAllLists(env.g, edges[..i + 1], idPos, row, x)
                       <==> OnAllLists(env.g, edges[..i], idPos, row, x) && x in EdgeList(env.g, e, idPos, row)
      {
        assert forall e' :: e' in edges[..i + 1] <==> e' in edges[..i] || e' == e;
      }
      prepared := true;
      i := i + 1;
    }
    assert edges[..i] == edges;
    if id in env.caches {
      var strategy: Strategy := *;
      var _ := list.IntersectList(env.caches[id], strategy);
    }
    forall x ensures x in list.ids <==> x in Candidates(env, edges, id, idPos, row) {
      InCandidates(env, edges, id, idPos, row, x);
    }
    InCandidates(env, edges, id, idPos, row, 0);
    SortedUnique(list.ids, Candidates(env, edges, id, idPos, row));
  }

  lemma EdgeListIncreasing(g: Store, e: Edge, idPos: PositionValue, row: Row)
    requires e.info.joinMethod.OneNode() && Readable(e, idPos, row)
    ensures StrictlyIncreasing(EdgeList(g, e, idPos, row))
  {
  }

  /** The pairs of ids for two new nodes, with the caches of both applied. */
  method ExtendRecordTwoNode(env: Env, feed: FeedTwoNode, idPos: PositionValue, row: Row)
    returns (pairs: seq<(nat, nat)>)
    requires feed.edge.info.joinMethod.TwoNode() && Readable(feed.edge, idPos, row)
    ensures pairs == AllowedPairs(env, feed.nodeToJoin1, feed.nodeToJoin2, PairList(env.g, feed.edge, idPos, row))
  {
    var candidates := PairList(env.g, feed.edge, idPos, row);
    pairs := KeepAllowedPairs(env, feed.nodeToJoin1, feed.nodeToJoin2, candidates);
  }

  method KeepAllowedPairs(env: Env, id1: nat, id2: nat, candidates: seq<(nat, nat)>) returns (pairs: seq<(nat, nat)>)
    ensures pairs == AllowedPairs(env, id1, id2, candidates)
  {
    pairs := [];
    var i := 0;
    while i < |candidates|
      invariant 0 <= i <= |candidates|
      invariant pairs == AllowedPairs(env, id1, id2, candidates[..i])
    {
      AllowedPairsSnoc(env, id1, id2, candidates[..i], candidates[i]);
      assert candidates[..i + 1] == candidates[..i] + [candidates[i]];
      if id1 in env.caches && candidates[i].0 !in env.caches[id1] {
      } else if id2 in env.caches && candidates[i].1 !in env.caches[id2] {
      } else {
        pairs := pairs + [candidates[i]];
      }
      i := i + 1;
    }
    assert candidates[..i] == candidates;
  }

  lemma {:induction false} AllowedPairsSnoc(env: Env, id1: nat, id2: nat, pairs: seq<(nat, nat)>, pair: (nat, nat))
    ensures AllowedPairs(env, id1, id2, pairs + [pair])
         == AllowedPairs(env, id1, id2, pairs) + (if PairAllowed(env, id1, id2, pair) then [pair] else [])
  {
    if pairs == [] {
      assert pairs + [pair] == [pair];
    } else {
      assert (pairs + [pair])[1..] == pairs[1..] + [pair];
      AllowedPairsSnoc(env, id1, id2, pairs[1..], pair);
    }
  }

  /** Every row of the table is as wide as the table has columns. */
  ghost predicate Rectangular(rows: seq<Row>, width: nat) {
    forall row :: row in rows ==> |row| == width
  }

  /** Writes what one record contributes: copies for all candidates but the last, and the record itself for the last. */
  method WriteRecord(newTable: IntermediateResult, record: Row, ids: seq<nat>, added: bool, distinct: bool)
    modifies newTable`values
    ensures newTable.values == old(newTable.values) + RecordRows(record, ids, added, distinct)
  {
    ghost var before := newTable.values;
    if |ids| > 0 {
      var last := |ids| - 1;
      if added {
        var i := 0;
        while i < last
          invariant 0 <= i <= last
          invariant newTable.values == before + Extended(record, ids[..i])
        {
          newTable.values := newTable.values + [record + [ids[i]]];
          i := i + 1;
        }
        newTable.values := newTable.values + [record + [ids[last]]];
        assert newTable.values == before + Extended(record, ids);
      } else if distinct {
        newTable.values := newTable.values + [record];
      } else {
        var i := 0;
        while i < last
          invariant 0 <= i <= last
          invariant newTable.values == before + Copies(record, i)
        {
          newTable.values := newTable.values + [record];
          i := i + 1;
        }
        newTable.values := newTable.values + [record];
        assert newTable.values == before + Copies(record, |ids|);
      }
    }
  }

  /** One more record: the rows so far grow by what the step makes of it. */
  lemma OneMoreRecord(env: Env, step: StepOperation, idPos: PositionValue, input: seq<Row>, done: nat)
    requires done < |input| && AllStepReadable(step, idPos, input)
    ensures AllStepReadable(step, idPos, input[..done]) && AllStepReadable(step, idPos, input[..done + 1])
    ensures StepReadable(step, idPos, input[done])
    ensures StepRows(env, step, idPos, input[..done + 1]) == StepRows(env, step, idPos, input[..done]) + StepRow(env, step, idPos, input[done])
  {
    assert input[done] in input;
    NewestRecord(env, step, idPos, input[..done], input[done], input[..done + 1]);
  }

  lemma NewestRecord(env: Env, step: StepOperation, idPos: PositionValue, earlier: seq<Row>, newest: Row, rows: seq<Row>)
    requires AllStepReadable(step, idPos, earlier) && StepReadable(step, idPos, newest) && rows == earlier + [newest]
    ensures AllStepReadable(step, idPos, rows)
    ensures StepRows(env, step, idPos, rows) == StepRows(env, step, idPos, earlier) + StepRow(env, step, idPos, newest)
  {
    StepRowsSingle(env, step, idPos, newest);
    StepRowsAppend(env, step, idPos, earlier, [newest]);
  }

  /** What is left of the list a loop walks: all of it, or what the loop has not erased yet. */
  function Remaining(input: seq<Row>, done: nat, remainOld: bool): seq<Row>
    requires done <= |input|
  {
    if remainOld then input else input[done..]
  }

  /** The body of the join loop for one record. The candidates are read through the grown position map. */
  method JoinRecord(env: Env, newTable: IntermediateResult, record: Row, feed: FeedOneNode, distinct: bool, ghost idPos: PositionValue)
    requires env.CachesSorted() && DuplicateFree(feed.edges, distinct) && AllReadable(feed.edges, idPos, record)
    requires NodeReadsKept(feed.edges, idPos, newTable.idPos)
    modifies newTable`values
    ensures newTable.values == old(newTable.values) + JoinNodeRow(env, feed, distinct, idPos, record)
  {
    assert AllReadable(feed.edges, newTable.idPos, record) by {
      forall e | e in feed.edges ensures Readable(e, newTable.idPos, record) {
        assert Readable(e, idPos, record);
      }
    }
    var list := ExtendRecordOneNode(env, feed.edges, newTable.idPos, feed.nodeToJoin, distinct, record);
    CandidatesAgree(env, feed.edges, feed.nodeToJoin, idPos, newTable.idPos, record);
    WriteRecord(newTable, record, list.ids, feed.addedIntoTable, distinct);
  }

  /** Where a join stands: the rows of some records are in the new table, and those records are gone from the old one unless it is kept. */
  ghost predicate Joining(env: Env, step: StepOperation, idPos: PositionValue, input: seq<Row>, remainOld: bool,
                          done: nat, it: nat, rows: seq<Row>, left: seq<Row>)
  {
    && done <= |input| && it == (if remainOld then done else 0) && left == Remaining(input, done, remainOld)
    && AllStepReadable(step, idPos, input[..done]) && rows == StepRows(env, step, idPos, input[..done])
  }

  lemma JoiningNext(env: Env, step: StepOperation, idPos: PositionValue, input: seq<Row>, remainOld: bool,
                    done: nat, it: nat, rows: seq<Row>, left: seq<Row>)
    requires Joining(env, step, idPos, input, remainOld, done, it, rows, left) && it < |left| && AllStepReadable(step, idPos, input)
    ensures done < |input| && StepReadable(step, idPos, input[done])
    ensures Joining(env, step, idPos, input, remainOld, done + 1, if remainOld then it + 1 else it,
                    rows + StepRow(env, step, idPos, input[done]), Remaining(input, done + 1, remainOld))
  {
    OneMoreRecord(env, step, idPos, input, done);
  }

  lemma JoiningEnds(env: Env, step: StepOperation, idPos: PositionValue, input: seq<Row>, remainOld: bool,
                    done: nat, it: nat, rows: seq<Row>, left: seq<Row>)
    requires Joining(env, step, idPos, input, remainOld, done, it, rows, left) && it >= |left| && AllStepReadable(step, idPos, input)
    ensures rows == StepRows(env, step, idPos, input) && left == if remainOld then input else []
  {
    assert input[..done] == input;
  }

  /** What the edges read is where it was before a column was added. */
  ghost predicate NodeReadsKept(edges: seq<Edge>, idPos: PositionValue, wider: PositionValue) {
    forall e, v :: e in edges && v in e.Reads() && v in idPos ==> v in wider && wider[v] == idPos[v]
  }

  lemma OneMoreKeepsReads(feed: FeedOneNode, distinct: bool, idPos: PositionValue, posId: PositionValue)
    requires forall e :: e in feed.edges ==> feed.nodeToJoin !in e.Reads()
    ensures NodeReadsKept(feed.edges, idPos, StepIdPos(JoinNode(feed, distinct, true), idPos, posId))
  {
  }

  /** One round: the record is joined, and erased from the old table unless that is kept. */
  method JoinNextNode(env: Env, newTable: IntermediateResult, oldTable: IntermediateResult, feed: FeedOneNode, distinct: bool, remainOld: bool,
                      it: nat, ghost input: seq<Row>, ghost done: nat, ghost idPos: PositionValue)
    returns (next: nat)
    requires newTable != oldTable && done < |input| && it == (if remainOld then done else 0)
    requires oldTable.values == Remaining(input, done, remainOld)
    requires env.CachesSorted() && DuplicateFree(feed.edges, distinct) && AllReadable(feed.edges, idPos, input[done])
    requires NodeReadsKept(feed.edges, idPos, newTable.idPos)
    modifies newTable`values, oldTable`values
    ensures newTable.values == old(newTable.values) + JoinNodeRow(env, feed, distinct, idPos, input[done])
    ensures oldTable.values == Remaining(input, done + 1, remainOld) && next == (if remainOld then done + 1 else 0)
  {
    JoinRecord(env, newTable, oldTable.values[it], feed, distinct, idPos);
    next := it;
    if !remainOld {
      oldTable.values := oldTable.values[..it] + oldTable.values[it + 1..];
    } else {
      next := it + 1;
    }
  }

  /** Joins every record of the old table, which is used up unless it is kept. */
  method JoinEachNode(env: Env, newTable: IntermediateResult, oldTable: IntermediateResult, feed: FeedOneNode, distinct: bool, remainOld: bool,
                      ghost idPos: PositionValue)
    requires newTable != oldTable && newTable.values == [] && NodeReadsKept(feed.edges, idPos, newTable.idPos)
    requires env.CachesSorted() && DuplicateFree(feed.edges, distinct)
    requires AllStepReadable(JoinNode(feed, distinct, remainOld), idPos, oldTable.values)
    modifies newTable`values, oldTable`values
    ensures newTable.values == StepRows(env, JoinNode(feed, distinct, remainOld), idPos, old(oldTable.values))
    ensures oldTable.values == if remainOld then old(oldTable.values) else []
  {
    ghost var step := JoinNode(feed, distinct, remainOld);
    ghost var input := oldTable.values;
    var it := 0;
    ghost var done: nat := 0;
    while it < |oldTable.values|
      invariant Joining(env, step, idPos, input, remainOld, done, it, newTable.values, oldTable.values)
      decreases |input| - done
    {
      JoiningNext(env, step, idPos, input, remainOld, done, it, newTable.values, oldTable.values);
      it := JoinNextNode(env, newTable, oldTable, feed, distinct, remainOld, it, input, done, idPos);
      done := done + 1;
    }
    JoiningEnds(env, step, idPos, input, remainOld, done, it, newTable.values, oldTable.values);
  }

  /** Joins one node to a table: the rows are exactly those the step makes, and the input is used up unless kept. */
  method JoinANode(env: Env, oldTable: IntermediateResult, feed: FeedOneNode, distinct: bool, remainOld: bool)
    returns (newTable: IntermediateResult)
    requires env.CachesSorted() && DuplicateFree(feed.edges, distinct)
    requires AllStepReadable(JoinNode(feed, distinct, remainOld), oldTable.idPos, oldTable.values)
    requires forall e :: e in feed.edges ==> feed.nodeToJoin !in e.Reads()
    modifies oldTable`values
    ensures fresh(newTable)
    ensures newTable.values == StepRows(env, JoinNode(feed, distinct, remainOld), oldTable.idPos, old(oldTable.values))
    ensures Multiplied(env, feed, distinct, oldTable.idPos, old(oldTable.values), newTable.values)
    ensures newTable.idPos == StepIdPos(JoinNode(feed, distinct, remainOld), oldTable.idPos, oldTable.posId)
    ensures newTable.posId == StepPosId(JoinNode(feed, distinct, remainOld), oldTable.posId)
    ensures oldTable.values == if remainOld then old(oldTable.values) else []
  {
    newTable := new IntermediateResult.OnlyPositionCopy(oldTable);
    if feed.addedIntoTable {
      var _ := newTable.AddNewNode(feed.nodeToJoin);
    }
    OneMoreKeepsReads(feed, distinct, oldTable.idPos, oldTable.posId);
    StepMultiplies(env, JoinNode(feed, distinct, remainOld), oldTable.idPos, oldTable.values);
    JoinEachNode(env, newTable, oldTable, feed, distinct, remainOld, oldTable.idPos);
  }
}
