/**
 Every plan step keeps tables exact: if the input rows are the satisfying assignments, each once,
 then so are the output rows for the input's constraints together with the step's own edges.
 */
module ExactSteps {
  import opened Rdf
  import opened Sequences
  import opened TableOperator
  import opened Semantics
  import opened StepSpec

  /** The edges of a step that brings in a new node: they look that node up and read nodes already there. */
  ghost predicate BringsIn(edges: seq<Edge>, node: nat, known: set<nat>) {
    forall e :: e in edges ==>
      && e.info.joinMethod.OneNode()
      && !e.constant.FilteredIsConstant(e.info) && e.info.GetVarToFilter() == node
      && e.Reads() <= known
  }

  function FoundIn(m: JoinMethod, t: Triple): nat
    requires m.OneNode()
  {
    if m.FindsS() then t.s else if m.FindsP() then t.p else t.o
  }

  /** Whatever an edge can find for the node, a scan of the node would find too. */
  ghost predicate Covered(env: Env, edges: seq<Edge>, node: nat) {
    node in env.caches ||
    exists e :: e in edges && e.info.joinMethod.OneNode() && forall t :: t in env.g ==> FoundIn(e.info.joinMethod, t) in env.ScanIds(node)
  }

  lemma StepReadableFromExact(env: Env, edges: seq<Edge>, node: nat, constraints: set<Constraint>, idPos: PositionValue,
                              posId: PositionValue, rows: seq<Row>, row: Row)
    requires Exact(env, constraints, idPos, posId, rows) && row in rows
    requires BringsIn(edges, node, idPos.Keys)
    ensures AllReadable(edges, idPos, row)
  {
    assert InTable(env, constraints, idPos, |posId|, row);
    forall e | e in edges ensures Readable(e, idPos, row) {
    }
  }

  lemma ExtendedAssignment(idPos: PositionValue, posId: PositionValue, node: nat, out: Row)
    requires MutuallyInverse(idPos, posId, |posId|) && node !in idPos && |out| == |posId| + 1
    ensures forall v :: v in AddedIdPos(idPos, posId, node) ==> AddedIdPos(idPos, posId, node)[v] < |out|
    ensures AssignmentOf(AddedIdPos(idPos, posId, node), out) == AssignmentOf(idPos, out[..|posId|])[node := out[|posId|]]
  {
  }

  /** Adding a variable that no constraint mentions does not change what the constraints say. */
  lemma SatisfiesExtended(env: Env, constraints: set<Constraint>, mu: Assignment, node: nat, x: nat)
    requires node !in mu && forall c :: c in constraints ==> c.Variables() <= mu.Keys
    ensures Satisfies(env, constraints, mu[node := x]) <==> Satisfies(env, constraints, mu) && env.InDomain(node, x)
  {
    var mu' := mu[node := x];
    forall c | c in constraints ensures Holds(env.g, c, mu) <==> Holds(env.g, c, mu') {
      HoldsDependsOnVariables(env.g, c, mu, mu');
    }
    if Satisfies(env, constraints, mu') {
      forall v | v in mu ensures env.InDomain(v, mu[v]) {
        assert v in mu';
      }
      assert node in mu';
    }
  }

  lemma OnListsIffHolds(env: Env, edges: seq<Edge>, node: nat, idPos: PositionValue, row: Row, x: nat)
    requires forall v :: v in idPos ==> idPos[v] < |row|
    requires node !in idPos && BringsIn(edges, node, idPos.Keys) && AllReadable(edges, idPos, row)
    ensures OnAllLists(env.g, edges, idPos, row, x) <==>
              forall c :: c in ConstraintsOf(edges) ==> Holds(env.g, c, AssignmentOf(idPos, row)[node := x])
  {
    var mu := AssignmentOf(idPos, row)[node := x];
    forall e | e in edges ensures x in EdgeList(env.g, e, idPos, row) <==> Holds(env.g, ConstraintOf(e), mu) {
      EdgeListMeaning(env.g, e, idPos, row, mu, x);
    }
    if OnAllLists(env.g, edges, idPos, row, x) {
      forall c | c in ConstraintsOf(edges) ensures Holds(env.g, c, mu) {
        var e :| e in edges && c == ConstraintOf(e);
      }
    }
    if forall c :: c in ConstraintsOf(edges) ==> Holds(env.g, c, mu) {
      forall e | e in edges ensures x in EdgeList(env.g, e, idPos, row) {
        assert ConstraintOf(e) in ConstraintsOf(edges);
      }
    }
  }

  /** A candidate is in the node's domain even when the node has no cache. */
  lemma CandidateInDomain(env: Env, edges: seq<Edge>, node: nat, mu: Assignment, x: nat)
    requires Covered(env, edges, node) && node in mu && mu[node] == x
    requires forall e :: e in edges ==> e.info.joinMethod.OneNode() && !e.constant.FilteredIsConstant(e.info) && e.info.GetVarToFilter() == node
    requires forall c :: c in ConstraintsOf(edges) ==> Holds(env.g, c, mu)
    requires node in env.caches ==> x in env.caches[node]
    ensures env.InDomain(node, x)
  {
    if node !in env.caches {
      var e :| e in edges && e.info.joinMethod.OneNode() && forall t :: t in env.g ==> FoundIn(e.info.joinMethod, t) in env.ScanIds(node);
      assert ConstraintOf(e) in ConstraintsOf(edges);
      var t :| t in env.g && Fits(ConstraintOf(e), mu, t);
      assert FoundIn(e.info.joinMethod, t) == x;
    }
  }

  lemma CandidatesMeaning(env: Env, constraints: set<Constraint>, edges: seq<Edge>, node: nat, idPos: PositionValue, row: Row, x: nat)
    requires forall v :: v in idPos ==> idPos[v] < |row|
    requires forall c :: c in constraints ==> c.Variables() <= idPos.Keys
    requires node !in idPos && edges != [] && BringsIn(edges, node, idPos.Keys) && AllReadable(edges, idPos, row)
    requires Covered(env, edges, node)
    ensures Satisfies(env, constraints, AssignmentOf(idPos, row)) && x in Candidates(env, edges, node, idPos, row) <==>
              Satisfies(env, constraints + ConstraintsOf(edges), AssignmentOf(idPos, row)[node := x])
  {
    var mu := AssignmentOf(idPos, row);
    var mu' := mu[node := x];
    InCandidates(env, edges, node, idPos, row, x);
    OnListsIffHolds(env, edges, node, idPos, row, x);
    SatisfiesExtended(env, constraints, mu, node, x);
    assert Satisfies(env, constraints + ConstraintsOf(edges), mu') <==>
             Satisfies(env, constraints, mu') && forall c :: c in ConstraintsOf(edges) ==> Holds(env.g, c, mu');
    if Satisfies(env, constraints, mu) && x in Candidates(env, edges, node, idPos, row) {
      CandidateInDomain(env, edges, node, mu', x);
    }
  }

  lemma InExtended(row: Row, ids: seq<nat>, out: Row)
    ensures out in Extended(row, ids) <==> |out| == |row| + 1 && out[..|row|] == row && out[|row|] in ids
  {
    if out in Extended(row, ids) {
      var i :| 0 <= i < |ids| && row + [ids[i]] == out;
    }
    if |out| == |row| + 1 && out[..|row|] == row && out[|row|] in ids {
      var i :| 0 <= i < |ids| && ids[i] == out[|row|];
      assert Extended(row, ids)[i] == row + [ids[i]];
      assert out == row + [ids[i]];
    }
  }

  lemma JoinNodeShape(env: Env, constraints: set<Constraint>, idPos: PositionValue, posId: PositionValue, rows: seq<Row>, step: StepOperation)
    requires Exact(env, constraints, idPos, posId, rows)
    requires step.JoinNode? && step.node.addedIntoTable && step.node.nodeToJoin !in idPos
    requires BringsIn(step.node.edges, step.node.nodeToJoin, idPos.Keys)
    ensures AllStepReadable(step, idPos, rows)
    ensures MutuallyInverse(StepIdPos(step, idPos, posId), StepPosId(step, posId), |posId| + 1)
    ensures |StepPosId(step, posId)| == |posId| + 1
    ensures forall c :: c in constraints + ConstraintsOf(step.node.edges) ==> c.Variables() <= StepIdPos(step, idPos, posId).Keys
  {
    var edges, node := step.node.edges, step.node.nodeToJoin;
    forall row | row in rows ensures StepReadable(step, idPos, row) {
      StepReadableFromExact(env, edges, node, constraints, idPos, posId, rows, row);
    }
    AddNewNodeInverse(idPos, posId, |posId|, node);
    InverseWidth(AddedIdPos(idPos, posId, node), AddedPosId(posId, node), |posId| + 1);
    forall e | e in edges ensures ConstraintOf(e).Variables() <= idPos.Keys + {node} {
      EdgeVariables(e);
    }
  }

  /** Joining a node that is stored in the table keeps it exact. */
  lemma JoinNodeExact(env: Env, constraints: set<Constraint>, idPos: PositionValue, posId: PositionValue, rows: seq<Row>, step: StepOperation)
    requires Exact(env, constraints, idPos, posId, rows)
    requires step.JoinNode? && step.node.addedIntoTable && step.node.edges != []
    requires step.node.nodeToJoin !in idPos
    requires BringsIn(step.node.edges, step.node.nodeToJoin, idPos.Keys) && Covered(env, step.node.edges, step.node.nodeToJoin)
    ensures AllStepReadable(step, idPos, rows)
    ensures Exact(env, constraints + ConstraintsOf(step.node.edges), StepIdPos(step, idPos, posId), StepPosId(step, posId),
                  StepRows(env, step, idPos, rows))
  {
    JoinNodeShape(env, constraints, idPos, posId, rows, step);
    forall out ensures out in StepRows(env, step, idPos, rows) <==>
                       InTable(env, constraints + ConstraintsOf(step.node.edges), StepIdPos(step, idPos, posId), |posId| + 1, out)
    {
      if out in StepRows(env, step, idPos, rows) {
        JoinNodeSound(env, constraints, idPos, posId, rows, step, out);
      }
      if InTable(env, constraints + ConstraintsOf(step.node.edges), StepIdPos(step, idPos, posId), |posId| + 1, out) {
        JoinNodeComplete(env, constraints, idPos, posId, rows, step, out);
      }
    }
    JoinNodeNoDuplicates(env, constraints, idPos, posId, rows, step);
  }

  lemma EdgeVariables(e: Edge)
    requires e.info.joinMethod.OneNode()
    ensures ConstraintOf(e).Variables() <= e.Reads() + {e.info.GetVarToFilter()}
  {
  }

  lemma WideEnoughReadable(edges: seq<Edge>, node: nat, idPos: PositionValue, row: Row)
    requires BringsIn(edges, node, idPos.Keys) && forall v :: v in idPos ==> idPos[v] < |row|
    ensures AllReadable(edges, idPos, row)
  {
    forall e | e in edges ensures Readable(e, idPos, row) {
    }
  }

  /** A row of the wider table is a row of the table together with one of that row's candidates. */
  lemma WiderRow(env: Env, constraints: set<Constraint>, edges: seq<Edge>, node: nat, idPos: PositionValue, posId: PositionValue, out: Row)
    requires MutuallyInverse(idPos, posId, |posId|) && forall c :: c in constraints ==> c.Variables() <= idPos.Keys
    requires node !in idPos && edges != [] && BringsIn(edges, node, idPos.Keys) && Covered(env, edges, node)
    requires MutuallyInverse(AddedIdPos(idPos, posId, node), AddedPosId(posId, node), |posId| + 1)
    requires |out| == |posId| + 1 && AllReadable(edges, idPos, out[..|posId|])
    ensures InTable(env, constraints + ConstraintsOf(edges), AddedIdPos(idPos, posId, node), |posId| + 1, out) <==>
              InTable(env, constraints, idPos, |posId|, out[..|posId|]) && out[|posId|] in Candidates(env, edges, node, idPos, out[..|posId|])
  {
    ExtendedAssignment(idPos, posId, node, out);
    CandidatesMeaning(env, constraints, edges, node, idPos, out[..|posId|], out[|posId|]);
  }

  lemma JoinNodeSound(env: Env, constraints: set<Constraint>, idPos: PositionValue, posId: PositionValue, rows: seq<Row>,
                        step: StepOperation, out: Row)
    requires Exact(env, constraints, idPos, posId, rows)
    requires step.JoinNode? && step.node.addedIntoTable && step.node.edges != []
    requires step.node.nodeToJoin !in idPos
    requires BringsIn(step.node.edges, step.node.nodeToJoin, idPos.Keys) && Covered(env, step.node.edges, step.node.nodeToJoin)
    requires AllStepReadable(step, idPos, rows)
    requires MutuallyInverse(AddedIdPos(idPos, posId, step.node.nodeToJoin), AddedPosId(posId, step.node.nodeToJoin), |posId| + 1)
    requires out in StepRows(env, step, idPos, rows)
    ensures InTable(env, constraints + ConstraintsOf(step.node.edges), AddedIdPos(idPos, posId, step.node.nodeToJoin), |posId| + 1, out)
  {
    InFlatMap(StepFunction(env, step, idPos), rows, out);
    var row :| row in rows && out in StepRow(env, step, idPos, row);
    assert InTable(env, constraints, idPos, |posId|, row);
    InExtended(row, Candidates(env, step.node.edges, step.node.nodeToJoin, idPos, row), out);
    WiderRow(env, constraints, step.node.edges, step.node.nodeToJoin, idPos, posId, out);
  }

  lemma InStepRows(env: Env, step: StepOperation, idPos: PositionValue, rows: seq<Row>, row: Row, out: Row)
    requires AllStepReadable(step, idPos, rows) && row in rows && out in StepRow(env, step, idPos, row)
    ensures out in StepRows(env, step, idPos, rows)
  {
    InFlatMap(StepFunction(env, step, idPos), rows, out);
  }

  lemma RowBefore(env: Env, constraints: set<Constraint>, idPos: PositionValue, posId: PositionValue, step: StepOperation, row: Row, out: Row)
    requires MutuallyInverse(idPos, posId, |posId|) && forall c :: c in constraints ==> c.Variables() <= idPos.Keys
    requires step.JoinNode? && step.node.addedIntoTable && step.node.edges != [] && step.node.nodeToJoin !in idPos
    requires BringsIn(step.node.edges, step.node.nodeToJoin, idPos.Keys) && Covered(env, step.node.edges, step.node.nodeToJoin)
    requires MutuallyInverse(AddedIdPos(idPos, posId, step.node.nodeToJoin), AddedPosId(posId, step.node.nodeToJoin), |posId| + 1)
    requires InTable(env, constraints + ConstraintsOf(step.node.edges), AddedIdPos(idPos, posId, step.node.nodeToJoin), |posId| + 1, out)
    requires row == out[..|posId|]
    ensures InTable(env, constraints, idPos, |posId|, row)
    ensures StepReadable(step, idPos, row) && out in StepRow(env, step, idPos, row)
  {
    WideEnoughReadable(step.node.edges, step.node.nodeToJoin, idPos, row);
    WiderRow(env, constraints, step.node.edges, step.node.nodeToJoin, idPos, posId, out);
    InExtended(row, Candidates(env, step.node.edges, step.node.nodeToJoin, idPos, row), out);
  }

  lemma JoinNodeComplete(env: Env, constraints: set<Constraint>, idPos: PositionValue, posId: PositionValue, rows: seq<Row>,
                        step: StepOperation, out: Row)
    requires Exact(env, constraints, idPos, posId, rows)
    requires step.JoinNode? && step.node.addedIntoTable && step.node.edges != []
    requires step.node.nodeToJoin !in idPos
    requires BringsIn(step.node.edges, step.node.nodeToJoin, idPos.Keys) && Covered(env, step.node.edges, step.node.nodeToJoin)
    requires AllStepReadable(step, idPos, rows)
    requires MutuallyInverse(AddedIdPos(idPos, posId, step.node.nodeToJoin), AddedPosId(posId, step.node.nodeToJoin), |posId| + 1)
    requires InTable(env, constraints + ConstraintsOf(step.node.edges), AddedIdPos(idPos, posId, step.node.nodeToJoin), |posId| + 1, out)
    ensures out in StepRows(env, step, idPos, rows)
  {
    var row := out[..|posId|];
    RowBefore(env, constraints, idPos, posId, step, row, out);
    assert row in rows;
    InStepRows(env, step, idPos, rows, row, out);
  }

  lemma ExtendedNoDuplicates(row: Row, ids: seq<nat>)
    requires StrictlyIncreasing(ids)
    ensures NoDuplicates(Extended(row, ids))
  {
    forall i, j | 0 <= i < j < |ids| ensures Extended(row, ids)[i] != Extended(row, ids)[j] {
      assert Extended(row, ids)[i][|row|] == ids[i];
      assert Extended(row, ids)[j][|row|] == ids[j];
    }
  }

  lemma JoinNodeNoDuplicates(env: Env, constraints: set<Constraint>, idPos: PositionValue, posId: PositionValue, rows: seq<Row>, step: StepOperation)
    requires Exact(env, constraints, idPos, posId, rows)
    requires step.JoinNode? && step.node.addedIntoTable && AllStepReadable(step, idPos, rows)
    ensures NoDuplicates(StepRows(env, step, idPos, rows))
  {
    var edges, node := step.node.edges, step.node.nodeToJoin;
    var f := StepFunction(env, step, idPos);
    forall row | row in rows ensures NoDuplicates(f(row)) {
      InCandidates(env, edges, node, idPos, row, 0);
      ExtendedNoDuplicates(row, Candidates(env, edges, node, idPos, row));
    }
    forall row, row', y | row in rows && row' in rows && y in f(row) && y in f(row') ensures row == row' {
      assert InTable(env, constraints, idPos, |posId|, row) && InTable(env, constraints, idPos, |posId|, row');
      InExtended(row, Candidates(env, edges, node, idPos, row), y);
      InExtended(row', Candidates(env, edges, node, idPos, row'), y);
    }
    FlatMapNoDuplicates(f, rows);
  }

  /** The table before the first step: one row, no columns. */
  lemma UnitExact(env: Env)
    ensures Exact(env, {}, map[], map[], [[]])
  {
    forall row: Row ensures row in [[]] <==> InTable(env, {}, map[], 0, row) {
      assert row in [[]] <==> row == [];
    }
  }

  /** A bare scan, or a node that starts from its cache, is exact as well. */
  lemma ScanExact(env: Env, step: StepOperation)
    requires env.CachesSorted()
    requires step.JoinNode? && step.node.edges == []
    ensures Exact(env, {}, InitialIdPos(step), InitialPosId(step), InitialRows(env, step))
  {
    var node := step.node.nodeToJoin;
    var ids := if node in env.caches then env.caches[node] else SortedIds(env.ScanIds(node));
    ScanTable(env, node, ids, InitialIdPos(step), InitialPosId(step));
  }

  lemma ScanTable(env: Env, node: nat, ids: seq<nat>, idPos: PositionValue, posId: PositionValue)
    requires env.CachesSorted() && idPos == AddedIdPos(map[], map[], node) && posId == AddedPosId(map[], node)
    requires ids == if node in env.caches then env.caches[node] else SortedIds(env.ScanIds(node))
    ensures Exact(env, {}, idPos, posId, Extended([], ids))
  {
    AddNewNodeInverse(map[], map[], 0, node);
    ExtendedNoDuplicates([], ids);
    forall row: Row ensures row in Extended([], ids) <==> InTable(env, {}, idPos, 1, row) {
      ScanRow(env, node, ids, idPos, row);
    }
  }

  lemma ScanRow(env: Env, node: nat, ids: seq<nat>, idPos: PositionValue, row: Row)
    requires idPos == map[node := 0]
    requires ids == if node in env.caches then env.caches[node] else SortedIds(env.ScanIds(node))
    ensures row in Extended([], ids) <==> InTable(env, {}, idPos, 1, row)
  {
    InExtended([], ids, row);
    if |row| == 1 {
      var mu := AssignmentOf(idPos, row);
      assert mu == map[node := row[0]];
      assert node in mu && row[..0] == [];
      assert Satisfies(env, {}, mu) <==> env.InDomain(node, row[0]);
    }
  }
}
