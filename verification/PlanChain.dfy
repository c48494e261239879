/**
 Chains of plan steps: the columns each step leaves, the result templates the depth-first execution
 prepares in advance, and the rows the remaining steps of a chain make out of a table.
 */
module PlanChain {
  import opened Sequences
  import opened TableOperator
  import opened Semantics
  import opened StepSpec
  import opened Executor
  import opened ExecutorFilter
  import opened ExactJoins

  datatype Columns = Columns(idPos: PositionValue, posId: PositionValue)

  predicate Starts(step: StepOperation) {
    step.JoinNode? || step.JoinTwoNodes?
  }

  function AddColumn(c: Columns, id: nat): Columns {
    Columns(AddedIdPos(c.idPos, c.posId, id), AddedPosId(c.posId, id))
  }

  ghost function InitialColumns(step: StepOperation): Columns
    requires Starts(step)
  {
    Columns(InitialIdPos(step), InitialPosId(step))
  }

  ghost function NextColumns(step: StepOperation, c: Columns): Columns {
    Columns(StepIdPos(step, c.idPos, c.posId), StepPosId(step, c.posId))
  }

  /** The columns of the table after the step at the given place of the chain. */
  ghost function ColumnsAt(steps: seq<StepOperation>, layer: nat): Columns
    requires layer < |steps| && Starts(steps[0])
  {
    if layer == 0 then InitialColumns(steps[0]) else NextColumns(steps[layer], ColumnsAt(steps, layer - 1))
  }

  /** The template of a step adds the joined node's column whether or not the step stores it. */
  function TemplateStep(step: StepOperation, c: Columns): Columns {
    match step
    case JoinNode(feed, _, _) => AddColumn(c, feed.nodeToJoin)
    case JoinTwoNodes(feed, _) => AddColumn(AddColumn(c, feed.nodeToJoin1), feed.nodeToJoin2)
    case _ => c
  }

  ghost function TemplateAt(steps: seq<StepOperation>, layer: nat): Columns
    requires layer < |steps|
  {
    TemplateStep(steps[layer], if layer == 0 then Columns(map[], map[]) else TemplateAt(steps, layer - 1))
  }

  ghost predicate Prepared(steps: seq<StepOperation>, template: seq<Columns>, layer: nat)
    requires layer < |steps| && layer < |template|
  {
    template[layer] == TemplateAt(steps, layer)
  }

  /** The column layout of each layer, prepared once for the whole search. */
  method GenerateResultTemplate(steps: seq<StepOperation>) returns (template: seq<Columns>)
    requires |steps| > 0
    ensures |template| == |steps|
    ensures forall i :: 0 <= i < |steps| ==> Prepared(steps, template, i)
  {
    template := [TemplateStep(steps[0], Columns(map[], map[]))];
    var it := 1;
    while it < |steps|
      invariant 1 <= it <= |steps| && |template| == it
      invariant forall i :: 0 <= i < it ==> Prepared(steps, template, i)
    {
      assert Prepared(steps, template, it - 1);
      ghost var before := template;
      template := template + [TemplateStep(steps[it], template[it - 1])];
      forall i | 0 <= i < it ensures Prepared(steps, template, i) {
        assert Prepared(steps, before, i);
      }
      it := it + 1;
    }
  }

  /** Every node joined after the first step is stored in the table. */
  predicate AllStored(steps: seq<StepOperation>) {
    forall i :: 0 < i < |steps| && steps[i].JoinNode? ==> steps[i].node.addedIntoTable
  }

  ghost predicate Dense(posId: PositionValue) {
    forall i :: i in posId <==> 0 <= i < |posId|
  }

  lemma AddedDense(posId: PositionValue, id: nat)
    requires Dense(posId)
    ensures Dense(AddedPosId(posId, id)) && |AddedPosId(posId, id)| == |posId| + 1
  {
    DomainSize(AddedPosId(posId, id), |posId| + 1);
  }

  lemma StepDense(step: StepOperation, posId: PositionValue)
    requires Dense(posId)
    ensures Dense(StepPosId(step, posId))
  {
    match step
    case JoinNode(feed, _, _) => AddedDense(posId, feed.nodeToJoin);
    case JoinTwoNodes(feed, _) =>
      AddedDense(posId, feed.nodeToJoin1);
      AddedDense(AddedPosId(posId, feed.nodeToJoin1), feed.nodeToJoin2);
    case _ =>
  }

  lemma {:induction false} ColumnsDense(steps: seq<StepOperation>, layer: nat)
    requires layer < |steps| && Starts(steps[0])
    ensures Dense(ColumnsAt(steps, layer).posId)
  {
    if layer == 0 {
      AddedDense(map[], if steps[0].JoinNode? then steps[0].node.nodeToJoin else steps[0].twoNodes.nodeToJoin1);
      StepDense(steps[0], map[]);
    } else {
      ColumnsDense(steps, layer - 1);
      StepDense(steps[layer], ColumnsAt(steps, layer - 1).posId);
    }
  }

  lemma {:induction false} TemplateMatchesUpTo(steps: seq<StepOperation>, layer: nat)
    requires layer < |steps| && Starts(steps[0])
    requires forall i :: 0 < i <= layer && steps[i].JoinNode? ==> steps[i].node.addedIntoTable
    ensures TemplateAt(steps, layer) == ColumnsAt(steps, layer)
  {
    if layer > 0 {
      TemplateMatchesUpTo(steps, layer - 1);
    }
  }

  /** A template that matches so far goes wrong at the first node that is not stored. */
  lemma TemplateBreaksAt(steps: seq<StepOperation>, layer: nat)
    requires 0 < layer < |steps| && Starts(steps[0])
    requires steps[layer].JoinNode? && !steps[layer].node.addedIntoTable
    requires TemplateAt(steps, layer - 1) == ColumnsAt(steps, layer - 1)
    ensures TemplateAt(steps, layer) != ColumnsAt(steps, layer)
  {
    ColumnsDense(steps, layer - 1);
    AddedDense(ColumnsAt(steps, layer - 1).posId, steps[layer].node.nodeToJoin);
  }

  /** The templates describe the tables of the chain exactly if the chain stores every node it joins. */
  lemma TemplatesMatchIff(steps: seq<StepOperation>)
    requires |steps| > 0 && Starts(steps[0])
    ensures (forall i :: 0 <= i < |steps| ==> TemplateAt(steps, i) == ColumnsAt(steps, i)) <==> AllStored(steps)
  {
    if AllStored(steps) {
      forall i | 0 <= i < |steps| ensures TemplateAt(steps, i) == ColumnsAt(steps, i) {
        TemplateMatchesUpTo(steps, i);
      }
    } else {
      var k :| 0 < k < |steps| && steps[k].JoinNode? && !steps[k].node.addedIntoTable;
      if TemplateAt(steps, k - 1) == ColumnsAt(steps, k - 1) {
        TemplateBreaksAt(steps, k);
        assert TemplateAt(steps, k) != ColumnsAt(steps, k);
      } else {
        assert TemplateAt(steps, k - 1) != ColumnsAt(steps, k - 1);
      }
      assert exists i :: 0 <= i < |steps| && TemplateAt(steps, i) != ColumnsAt(steps, i);
    }
  }

  // ---- chains that read only columns they have ----

  predicate ReadsOnly(edges: seq<Edge>, known: set<nat>) {
    forall e :: e in edges ==> e.info.joinMethod.OneNode() && e.Reads() <= known
  }

  predicate CheckFits(e: Edge, known: set<nat>) {
    && NotAllConstant(e) && e.Reads() <= known
    && (e.constant.FilteredIsConstant(e.info) || e.info.GetVarToFilter() in known)
  }

  /** A step that can be applied to a table with the given variables. */
  predicate StepFits(step: StepOperation, known: set<nat>) {
    match step
    case JoinNode(feed, distinct, _) =>
      feed.nodeToJoin !in known && ReadsOnly(feed.edges, known) && DuplicateFree(feed.edges, distinct)
    case JoinTwoNodes(feed, _) =>
      && feed.nodeToJoin1 !in known && feed.nodeToJoin2 !in known && feed.nodeToJoin1 != feed.nodeToJoin2
      && feed.edge.info.joinMethod.TwoNode() && feed.edge.Reads() <= known
    case EdgeCheck(feed, _) => forall e :: e in feed.edges ==> CheckFits(e, known)
    case JoinTable(_, _) => false
  }

  ghost predicate Shaped(c: Columns, rows: seq<Row>) {
    MutuallyInverse(c.idPos, c.posId, |c.posId|) && Rectangular(rows, |c.posId|)
  }

  lemma FittingStepReads(step: StepOperation, c: Columns, rows: seq<Row>)
    requires StepFits(step, c.idPos.Keys) && Shaped(c, rows)
    ensures AllStepReadable(step, c.idPos, rows)
  {
    forall row | row in rows ensures StepReadable(step, c.idPos, row) {
    }
  }

  lemma FittingStepColumns(step: StepOperation, c: Columns)
    requires StepFits(step, c.idPos.Keys) && MutuallyInverse(c.idPos, c.posId, |c.posId|)
    ensures MutuallyInverse(NextColumns(step, c).idPos, NextColumns(step, c).posId, |NextColumns(step, c).posId|)
    ensures |NextColumns(step, c).posId| == |c.posId| + (if step.JoinTwoNodes? then 2 else if step.JoinNode? && step.node.addedIntoTable then 1 else 0)
  {
    match step
    case JoinNode(feed, _, _) =>
      AddNewNodeInverse(c.idPos, c.posId, |c.posId|, feed.nodeToJoin);
      DomainSize(AddedPosId(c.posId, feed.nodeToJoin), |c.posId| + 1);
    case JoinTwoNodes(feed, _) => BothAdded(c.idPos, c.posId, feed.nodeToJoin1, feed.nodeToJoin2);
    case _ =>
  }

  lemma StepRowWidth(env: Env, step: StepOperation, idPos: PositionValue, row: Row, out: Row)
    requires StepReadable(step, idPos, row) && out in StepRow(env, step, idPos, row)
    ensures |out| == |row| + (if step.JoinTwoNodes? then 2 else if step.JoinNode? && step.node.addedIntoTable then 1 else 0)
  {
  }

  /** A fitting step can be carried out and leaves a well-shaped table. */
  lemma StepKeepsShape(env: Env, step: StepOperation, c: Columns, rows: seq<Row>)
    requires StepFits(step, c.idPos.Keys) && Shaped(c, rows)
    ensures AllStepReadable(step, c.idPos, rows)
    ensures Shaped(NextColumns(step, c), StepRows(env, step, c.idPos, rows))
  {
    FittingStepReads(step, c, rows);
    FittingStepColumns(step, c);
    forall out | out in StepRows(env, step, c.idPos, rows) ensures |out| == |NextColumns(step, c).posId| {
      InFlatMap(StepFunction(env, step, c.idPos), rows, out);
      var row :| row in rows && out in StepRow(env, step, c.idPos, row);
      StepRowWidth(env, step, c.idPos, row, out);
    }
  }

  ghost predicate FitsAt(steps: seq<StepOperation>, layer: nat)
    requires 0 < layer < |steps| && Starts(steps[0])
  {
    StepFits(steps[layer], ColumnsAt(steps, layer - 1).idPos.Keys)
  }

  lemma FitsBy(steps: seq<StepOperation>, i: nat, step: StepOperation, columns: Columns)
    requires 0 < i < |steps| && Starts(steps[0]) && steps[i] == step && ColumnsAt(steps, i - 1) == columns
    requires StepFits(step, columns.idPos.Keys)
    ensures FitsAt(steps, i)
  {
  }

  /** A chain whose first step starts a table and whose other steps fit the columns they find. */
  ghost predicate ChainFits(steps: seq<StepOperation>) {
    && |steps| > 0 && Starts(steps[0]) && StepFits(steps[0], {})
    && forall i :: 0 < i < |steps| ==> FitsAt(steps, i)
  }

  /** The rows that the steps from the given layer on make out of a table. */
  ghost function RestRows(env: Env, steps: seq<StepOperation>, layer: nat, rows: seq<Row>): seq<Row>
    requires ChainFits(steps) && 0 < layer <= |steps| && Shaped(ColumnsAt(steps, layer - 1), rows)
    decreases |steps| - layer
  {
    if layer == |steps| then rows else
      assert FitsAt(steps, layer);
      StepKeepsShape(env, steps[layer], ColumnsAt(steps, layer - 1), rows);
      RestRows(env, steps, layer + 1, StepRows(env, steps[layer], ColumnsAt(steps, layer - 1).idPos, rows))
  }

  lemma ShapedParts(c: Columns, a: seq<Row>, b: seq<Row>)
    ensures Shaped(c, a + b) <==> Shaped(c, a) && Shaped(c, b)
  {
    forall row ensures row in a + b <==> row in a || row in b {
    }
  }

  /** Splitting a table splits the rows that come out of it. */
  lemma {:induction false} RestRowsAppend(env: Env, steps: seq<StepOperation>, layer: nat, a: seq<Row>, b: seq<Row>)
    requires ChainFits(steps) && 0 < layer <= |steps|
    requires Shaped(ColumnsAt(steps, layer - 1), a) && Shaped(ColumnsAt(steps, layer - 1), b)
    ensures Shaped(ColumnsAt(steps, layer - 1), a + b)
    ensures RestRows(env, steps, layer, a + b) == RestRows(env, steps, layer, a) + RestRows(env, steps, layer, b)
    decreases |steps| - layer
  {
    var c := ColumnsAt(steps, layer - 1);
    ShapedParts(c, a, b);
    if layer < |steps| {
      assert FitsAt(steps, layer);
      StepKeepsShape(env, steps[layer], c, a);
      StepKeepsShape(env, steps[layer], c, b);
      StepRowsAppend(env, steps[layer], c.idPos, a, b);
      RestRowsAppend(env, steps, layer + 1, StepRows(env, steps[layer], c.idPos, a), StepRows(env, steps[layer], c.idPos, b));
    }
  }

  lemma {:induction false} RestRowsEmpty(env: Env, steps: seq<StepOperation>, layer: nat)
    requires ChainFits(steps) && 0 < layer <= |steps| && Shaped(ColumnsAt(steps, layer - 1), [])
    ensures RestRows(env, steps, layer, []) == []
    decreases |steps| - layer
  {
    if layer < |steps| {
      assert FitsAt(steps, layer);
      StepKeepsShape(env, steps[layer], ColumnsAt(steps, layer - 1), []);
      RestRowsEmpty(env, steps, layer + 1);
    }
  }

  lemma OneNodeShape(env: Env, step: StepOperation)
    requires Starts(step) && StepFits(step, {}) && step.JoinNode?
    ensures StepReadable(step, map[], []) && Shaped(InitialColumns(step), InitialRows(env, step))
  {
    AddNewNodeInverse(map[], map[], 0, step.node.nodeToJoin);
    DomainSize(AddedPosId(map[], step.node.nodeToJoin), 1);
  }

  lemma TwoNodesShape(env: Env, step: StepOperation)
    requires Starts(step) && StepFits(step, {}) && step.JoinTwoNodes?
    ensures StepReadable(step, map[], []) && Shaped(InitialColumns(step), InitialRows(env, step))
  {
    FittingStepColumns(step, Columns(map[], map[]));
    forall out | out in InitialRows(env, step) ensures |out| == 2 {
      StepRowWidth(env, step, map[], [], out);
    }
  }

  lemma InitialShape(env: Env, step: StepOperation)
    requires Starts(step) && StepFits(step, {})
    ensures StepReadable(step, map[], [])
    ensures Shaped(InitialColumns(step), InitialRows(env, step))
  {
    if step.JoinNode? {
      OneNodeShape(env, step);
    } else {
      TwoNodesShape(env, step);
    }
  }

  /** All rows of a chain. */
  ghost function ChainRows(env: Env, steps: seq<StepOperation>): seq<Row>
    requires ChainFits(steps)
  {
    InitialShape(env, steps[0]);
    RestRows(env, steps, 1, InitialRows(env, steps[0]))
  }
}
