/**
 When the layouts prepared for a depth-first search serve it: each step looks up its variables in the
 layout prepared for the layer below, and a joined node that is not stored shifts everything stored later.
 */
module ChainLayouts {
  import Rdf
  import Sequences
  import opened TableOperator
  import opened Semantics
  import opened StepSpec
  import opened Executor
  import opened ExecutorFilter
  import opened PlanChain

  /** The variables whose values a step looks up in its input. */
  function StepReads(step: StepOperation): set<nat> {
    match step
    case JoinNode(feed, _, _) => set e, v | e in feed.edges && v in e.Reads() :: v
    case JoinTwoNodes(feed, _) => feed.edge.Reads()
    case EdgeCheck(feed, _) => set e, v | e in feed.edges && v in CheckReads(e) :: v
    case JoinTable(_, _) => {}
  }

  function CheckReads(e: Edge): set<nat> {
    e.Reads() + (if e.info.joinMethod.OneNode() && !e.constant.FilteredIsConstant(e.info) then {e.info.GetVarToFilter()} else {})
  }

  /** Both maps have the variables at the same positions. */
  ghost predicate AgreeOn(looked: set<nat>, a: PositionValue, b: PositionValue) {
    forall v :: v in looked ==> v in a && v in b && a[v] == b[v]
  }

  lemma ReadableAgrees(e: Edge, a: PositionValue, b: PositionValue, row: Row)
    requires AgreeOn(e.Reads(), a, b) && Readable(e, a, row)
    ensures Readable(e, b, row)
  {
  }

  lemma ReadsOfEdge(step: StepOperation, e: Edge)
    requires step.JoinNode? && e in step.node.edges
    ensures e.Reads() <= StepReads(step)
  {
  }

  lemma ReadsOfCheck(step: StepOperation, e: Edge)
    requires step.EdgeCheck? && e in step.filter.edges
    ensures CheckReads(e) <= StepReads(step)
  {
  }

  lemma JoinNodeRowAgrees(env: Env, step: StepOperation, a: PositionValue, b: PositionValue, row: Row)
    requires step.JoinNode? && StepReadable(step, a, row) && AgreeOn(StepReads(step), a, b)
    ensures StepReadable(step, b, row) && StepRow(env, step, a, row) == StepRow(env, step, b, row)
  {
    var edges := step.node.edges;
    forall e | e in edges ensures AgreeOn(e.Reads(), a, b) && Readable(e, b, row) {
      ReadsOfEdge(step, e);
      assert Readable(e, a, row);
      ReadableAgrees(e, a, b, row);
    }
    CandidatesAgree(env, edges, step.node.nodeToJoin, a, b, row);
  }

  lemma CheckAgrees(env: Env, step: StepOperation, e: Edge, a: PositionValue, b: PositionValue, row: Row)
    requires step.EdgeCheck? && e in step.filter.edges && Checkable(e, a, row) && AgreeOn(StepReads(step), a, b)
    ensures Checkable(e, b, row) && (PassesEdge(env.g, e, a, row) <==> PassesEdge(env.g, e, b, row))
  {
    ReadsOfCheck(step, e);
    ReadableAgrees(e, a, b, row);
    EdgeListAgrees(env.g, e, a, b, row);
  }

  lemma EdgeCheckRowAgrees(env: Env, step: StepOperation, a: PositionValue, b: PositionValue, row: Row)
    requires step.EdgeCheck? && StepReadable(step, a, row) && AgreeOn(StepReads(step), a, b)
    ensures StepReadable(step, b, row) && StepRow(env, step, a, row) == StepRow(env, step, b, row)
  {
    forall e | e in step.filter.edges
      ensures Checkable(e, b, row) && (PassesEdge(env.g, e, a, row) <==> PassesEdge(env.g, e, b, row))
    {
      CheckAgrees(env, step, e, a, b, row);
    }
  }

  lemma StepRowAgrees(env: Env, step: StepOperation, a: PositionValue, b: PositionValue, row: Row)
    requires StepReadable(step, a, row) && AgreeOn(StepReads(step), a, b)
    ensures StepReadable(step, b, row) && StepRow(env, step, a, row) == StepRow(env, step, b, row)
  {
    match step
    case JoinNode(_, _, _) => JoinNodeRowAgrees(env, step, a, b, row);
    case JoinTwoNodes(feed, _) =>
      ReadableAgrees(feed.edge, a, b, row);
      PairListAgrees(env.g, feed.edge, a, b, row);
    case EdgeCheck(_, _) => EdgeCheckRowAgrees(env, step, a, b, row);
  }

  /** Two layouts that agree on what a step reads give the same rows. */
  lemma StepRowsAgree(env: Env, step: StepOperation, a: PositionValue, b: PositionValue, rows: seq<Row>)
    requires AllStepReadable(step, a, rows) && AgreeOn(StepReads(step), a, b)
    ensures AllStepReadable(step, b, rows) && StepRows(env, step, a, rows) == StepRows(env, step, b, rows)
  {
    forall row | row in rows ensures StepReadable(step, b, row) && StepRow(env, step, a, row) == StepRow(env, step, b, row) {
      StepRowAgrees(env, step, a, b, row);
    }
    Sequences.FlatMapSame(StepFunction(env, step, a), StepFunction(env, step, b), rows);
  }

  // ---- how far the layouts are off ----

  predicate Unstored(step: StepOperation) {
    step.JoinNode? && !step.node.addedIntoTable
  }

  /** How many nodes have been joined and not stored; the first step always stores its node. */
  function UnstoredCount(steps: seq<StepOperation>, k: nat): nat
    requires k < |steps|
  {
    if k == 0 then 0 else UnstoredCount(steps, k - 1) + (if Unstored(steps[k]) then 1 else 0)
  }

  lemma {:induction false} CountPositiveIff(steps: seq<StepOperation>, k: nat)
    requires k < |steps|
    ensures UnstoredCount(steps, k) > 0 <==> exists j :: 0 < j <= k && Unstored(steps[j])
  {
    if k > 0 {
      CountPositiveIff(steps, k - 1);
    }
  }

  /** The variables whose columns a step adds. */
  function Stores(steps: seq<StepOperation>, k: nat): set<nat>
    requires k < |steps|
  {
    match steps[k]
    case JoinNode(feed, _, _) => if k == 0 || feed.addedIntoTable then {feed.nodeToJoin} else {}
    case JoinTwoNodes(feed, _) => {feed.nodeToJoin1, feed.nodeToJoin2}
    case _ => {}
  }

  lemma TemplateStepDense(step: StepOperation, c: Columns)
    requires Dense(c.posId)
    ensures Dense(TemplateStep(step, c).posId)
    ensures |TemplateStep(step, c).posId| == |c.posId| + (if step.JoinNode? then 1 else if step.JoinTwoNodes? then 2 else 0)
  {
    match step
    case JoinNode(feed, _, _) => AddedDense(c.posId, feed.nodeToJoin);
    case JoinTwoNodes(feed, _) =>
      AddedDense(c.posId, feed.nodeToJoin1);
      AddedDense(AddedPosId(c.posId, feed.nodeToJoin1), feed.nodeToJoin2);
    case _ =>
  }

  lemma NextColumnsDense(step: StepOperation, c: Columns)
    requires Dense(c.posId)
    ensures Dense(NextColumns(step, c).posId)
    ensures |NextColumns(step, c).posId| ==
              |c.posId| + (if step.JoinTwoNodes? then 2 else if step.JoinNode? && step.node.addedIntoTable then 1 else 0)
  {
    StepDense(step, c.posId);
    TemplateStepDense(step, c);
  }

  lemma FirstLayout(steps: seq<StepOperation>)
    requires |steps| > 0 && Starts(steps[0])
    ensures TemplateAt(steps, 0) == ColumnsAt(steps, 0) && Dense(ColumnsAt(steps, 0).posId)
  {
    ColumnsDense(steps, 0);
  }

  /** The layout of a layer is wider than its table by the nodes that are not stored. */
  lemma {:induction false} LayoutWidth(steps: seq<StepOperation>, layer: nat)
    requires layer < |steps| && Starts(steps[0])
    ensures Dense(TemplateAt(steps, layer).posId) && Dense(ColumnsAt(steps, layer).posId)
    ensures |TemplateAt(steps, layer).posId| == |ColumnsAt(steps, layer).posId| + UnstoredCount(steps, layer)
  {
    if layer == 0 {
      FirstLayout(steps);
    } else {
      LayoutWidth(steps, layer - 1);
      TemplateStepDense(steps[layer], TemplateAt(steps, layer - 1));
      NextColumnsDense(steps[layer], ColumnsAt(steps, layer - 1));
    }
  }

  /** The layout has a variable that far to the right of where the table has it. */
  ghost predicate ShiftedBy(v: nat, table: Columns, layout: Columns, shift: nat) {
    v in table.idPos && v in layout.idPos && layout.idPos[v] == table.idPos[v] + shift
  }

  predicate AddsColumn(step: StepOperation, v: nat) {
    || (step.JoinNode? && step.node.addedIntoTable && v == step.node.nodeToJoin)
    || (step.JoinTwoNodes? && (v == step.twoNodes.nodeToJoin1 || v == step.twoNodes.nodeToJoin2))
  }

  lemma NewlyShifted(step: StepOperation, table: Columns, layout: Columns, v: nat, shift: nat)
    requires Dense(table.posId) && Dense(layout.posId) && |layout.posId| == |table.posId| + shift && AddsColumn(step, v)
    ensures ShiftedBy(v, NextColumns(step, table), TemplateStep(step, layout), shift)
  {
    if step.JoinTwoNodes? {
      AddedDense(table.posId, step.twoNodes.nodeToJoin1);
      AddedDense(layout.posId, step.twoNodes.nodeToJoin1);
    }
  }

  lemma StillShifted(step: StepOperation, table: Columns, layout: Columns, v: nat, shift: nat)
    requires ShiftedBy(v, table, layout, shift) && StepFits(step, table.idPos.Keys)
    ensures ShiftedBy(v, NextColumns(step, table), TemplateStep(step, layout), shift)
  {
  }

  lemma FirstShift(steps: seq<StepOperation>, v: nat)
    requires |steps| > 0 && Starts(steps[0]) && v in Stores(steps, 0)
    ensures ShiftedBy(v, ColumnsAt(steps, 0), TemplateAt(steps, 0), 0)
  {
    FirstLayout(steps);
  }

  lemma StoredKind(steps: seq<StepOperation>, k: nat, v: nat)
    requires 0 < k < |steps| && v in Stores(steps, k)
    ensures AddsColumn(steps[k], v) && UnstoredCount(steps, k) == UnstoredCount(steps, k - 1)
  {
  }

  lemma LayerBelow(steps: seq<StepOperation>, k: nat) returns (table: Columns, layout: Columns, shift: nat)
    requires 0 < k < |steps| && Starts(steps[0])
    ensures Dense(table.posId) && Dense(layout.posId) && |layout.posId| == |table.posId| + shift && shift == UnstoredCount(steps, k - 1)
    ensures ColumnsAt(steps, k) == NextColumns(steps[k], table) && TemplateAt(steps, k) == TemplateStep(steps[k], layout)
  {
    LayoutWidth(steps, k - 1);
    table, layout, shift := ColumnsAt(steps, k - 1), TemplateAt(steps, k - 1), UnstoredCount(steps, k - 1);
  }

  lemma ShiftWhenStored(steps: seq<StepOperation>, k: nat, v: nat)
    requires k < |steps| && Starts(steps[0]) && v in Stores(steps, k)
    ensures ShiftedBy(v, ColumnsAt(steps, k), TemplateAt(steps, k), UnstoredCount(steps, k))
  {
    if k == 0 {
      FirstShift(steps, v);
    } else {
      StoredKind(steps, k, v);
      var table, layout, shift := LayerBelow(steps, k);
      NewlyShifted(steps[k], table, layout, v, shift);
    }
  }

  lemma ShiftLater(steps: seq<StepOperation>, layer: nat, v: nat, shift: nat)
    requires 0 < layer < |steps| && Starts(steps[0]) && FitsAt(steps, layer)
    requires ShiftedBy(v, ColumnsAt(steps, layer - 1), TemplateAt(steps, layer - 1), shift)
    ensures ShiftedBy(v, ColumnsAt(steps, layer), TemplateAt(steps, layer), shift)
  {
    StillShifted(steps[layer], ColumnsAt(steps, layer - 1), TemplateAt(steps, layer - 1), v, shift);
  }

  /** A variable is off by the number of nodes that were joined, and not stored, before it was stored. */
  lemma {:induction false} ShiftOf(steps: seq<StepOperation>, layer: nat, k: nat, v: nat)
    requires ChainFits(steps) && k <= layer < |steps| && v in Stores(steps, k)
    ensures ShiftedBy(v, ColumnsAt(steps, layer), TemplateAt(steps, layer), UnstoredCount(steps, k))
  {
    if k == layer {
      ShiftWhenStored(steps, k, v);
    } else {
      assert ShiftedBy(v, ColumnsAt(steps, layer - 1), TemplateAt(steps, layer - 1), UnstoredCount(steps, k)) by {
        ShiftOf(steps, layer - 1, k, v);
      }
      ShiftNext(steps, layer, v, UnstoredCount(steps, k));
    }
  }

  lemma ShiftNext(steps: seq<StepOperation>, layer: nat, v: nat, shift: nat)
    requires ChainFits(steps) && 0 < layer < |steps|
    requires ShiftedBy(v, ColumnsAt(steps, layer - 1), TemplateAt(steps, layer - 1), shift)
    ensures ShiftedBy(v, ColumnsAt(steps, layer), TemplateAt(steps, layer), shift)
  {
    assert FitsAt(steps, layer);
    ShiftLater(steps, layer, v, shift);
  }

  lemma ColumnsFrom(step: StepOperation, c: Columns, v: nat)
    requires v in NextColumns(step, c).idPos && v !in c.idPos
    ensures AddsColumn(step, v)
  {
  }

  /** Every column was added by some step. */
  lemma {:induction false} StoredBy(steps: seq<StepOperation>, layer: nat, v: nat) returns (k: nat)
    requires layer < |steps| && Starts(steps[0]) && v in ColumnsAt(steps, layer).idPos
    ensures k <= layer && v in Stores(steps, k)
  {
    if layer > 0 && v in ColumnsAt(steps, layer - 1).idPos {
      k := StoredBy(steps, layer - 1, v);
    } else {
      if layer > 0 {
        ColumnsFrom(steps[layer], ColumnsAt(steps, layer - 1), v);
      }
      k := layer;
    }
  }

  /** The layout of the layer below has the variables a step reads where its table has them. */
  ghost predicate LayoutServes(steps: seq<StepOperation>, i: nat)
    requires 0 < i < |steps| && Starts(steps[0])
  {
    AgreeOn(StepReads(steps[i]), ColumnsAt(steps, i - 1).idPos, TemplateAt(steps, i - 1).idPos)
  }

  /** No step reads a variable that was stored after some joined node was not. */
  predicate ReadsInPlace(steps: seq<StepOperation>) {
    forall i, k :: 0 < k < i < |steps| && StepReads(steps[i]) * Stores(steps, k) != {} ==> UnstoredCount(steps, k) == 0
  }

  lemma StepReadsKnown(step: StepOperation, known: set<nat>)
    requires StepFits(step, known)
    ensures StepReads(step) <= known
  {
  }

  lemma InPlaceServes(steps: seq<StepOperation>, i: nat)
    requires ChainFits(steps) && 0 < i < |steps| && ReadsInPlace(steps)
    ensures LayoutServes(steps, i)
  {
    assert FitsAt(steps, i);
    StepReadsKnown(steps[i], ColumnsAt(steps, i - 1).idPos.Keys);
    forall v | v in StepReads(steps[i]) ensures ShiftedBy(v, ColumnsAt(steps, i - 1), TemplateAt(steps, i - 1), 0) {
      var k := StoredBy(steps, i - 1, v);
      ShiftOf(steps, i - 1, k, v);
      assert v in StepReads(steps[i]) * Stores(steps, k);
    }
  }

  lemma NoShift(looked: set<nat>, table: Columns, layout: Columns, v: nat, shift: nat)
    requires AgreeOn(looked, table.idPos, layout.idPos) && v in looked && ShiftedBy(v, table, layout, shift)
    ensures shift == 0
  {
  }

  lemma ServedVariable(steps: seq<StepOperation>, i: nat, k: nat, looked: set<nat>, v: nat)
    requires ChainFits(steps) && 0 < k < i < |steps| && v in looked && v in Stores(steps, k)
    requires AgreeOn(looked, ColumnsAt(steps, i - 1).idPos, TemplateAt(steps, i - 1).idPos)
    ensures UnstoredCount(steps, k) == 0
  {
    var table, layout, shift := ColumnsAt(steps, i - 1), TemplateAt(steps, i - 1), UnstoredCount(steps, k);
    assert ShiftedBy(v, table, layout, shift) by {
      ShiftOf(steps, i - 1, k, v);
    }
    NoShift(looked, table, layout, v, shift);
  }

  lemma ServesInPlace(steps: seq<StepOperation>, i: nat, k: nat)
    requires ChainFits(steps) && 0 < k < i < |steps| && LayoutServes(steps, i) && StepReads(steps[i]) * Stores(steps, k) != {}
    ensures UnstoredCount(steps, k) == 0
  {
    var v :| v in StepReads(steps[i]) * Stores(steps, k);
    ServedVariable(steps, i, k, StepReads(steps[i]), v);
  }

  /**
   The layouts serve every step of a chain exactly if no step reads a variable that was stored after some
   joined node was not stored. In particular nodes nobody reads, and unstored nodes at the end, do no harm.
   */
  lemma LayoutsServeIff(steps: seq<StepOperation>)
    requires ChainFits(steps)
    ensures (forall i :: 0 < i < |steps| ==> LayoutServes(steps, i)) <==> ReadsInPlace(steps)
  {
    if ReadsInPlace(steps) {
      forall i | 0 < i < |steps| ensures LayoutServes(steps, i) {
        InPlaceServes(steps, i);
      }
    }
    if forall i :: 0 < i < |steps| ==> LayoutServes(steps, i) {
      forall i, k | 0 < k < i < |steps| && StepReads(steps[i]) * Stores(steps, k) != {} ensures UnstoredCount(steps, k) == 0 {
        ServesInPlace(steps, i, k);
      }
    }
  }

  lemma StoredReadsInPlace(steps: seq<StepOperation>)
    requires AllStored(steps)
    ensures ReadsInPlace(steps)
  {
    forall k | 0 < k < |steps| ensures UnstoredCount(steps, k) == 0 {
      CountPositiveIff(steps, k);
    }
  }

  /** The layout the search returns with its rows has the columns of those rows exactly if every joined node is stored. */
  lemma LastLayoutIff(steps: seq<StepOperation>)
    requires |steps| > 0 && Starts(steps[0])
    ensures TemplateAt(steps, |steps| - 1) == ColumnsAt(steps, |steps| - 1) <==> AllStored(steps)
  {
    if AllStored(steps) {
      TemplateMatchesUpTo(steps, |steps| - 1);
    } else {
      WiderLayout(steps);
    }
  }

  lemma WiderLayout(steps: seq<StepOperation>)
    requires |steps| > 0 && Starts(steps[0]) && !AllStored(steps)
    ensures |TemplateAt(steps, |steps| - 1).posId| > |ColumnsAt(steps, |steps| - 1).posId|
  {
    SomethingSkipped(steps);
    WidthsDiffer(steps, |steps| - 1);
  }

  lemma SomethingSkipped(steps: seq<StepOperation>)
    requires |steps| > 0 && !AllStored(steps)
    ensures UnstoredCount(steps, |steps| - 1) > 0
  {
    var j :| 0 < j < |steps| && Unstored(steps[j]);
    CountPositiveIff(steps, |steps| - 1);
  }

  lemma WidthsDiffer(steps: seq<StepOperation>, layer: nat)
    requires layer < |steps| && Starts(steps[0])
    ensures |TemplateAt(steps, layer).posId| == |ColumnsAt(steps, layer).posId| + UnstoredCount(steps, layer)
  {
    LayoutWidth(steps, layer);
  }

  /** If only the last step does not store its node, the search reads in place; only the columns it returns are wrong. */
  lemma UnstoredLastStep(steps: seq<StepOperation>)
    requires ChainFits(steps) && |steps| > 1 && Unstored(steps[|steps| - 1]) && AllStored(steps[..|steps| - 1])
    ensures ReadsInPlace(steps) && TemplateAt(steps, |steps| - 1) != ColumnsAt(steps, |steps| - 1)
  {
    forall k | 0 < k < |steps| - 1 ensures UnstoredCount(steps, k) == 0 {
      CountPositiveIff(steps, k);
      assert forall j :: 0 < j <= k ==> steps[j] == steps[..|steps| - 1][j];
    }
    LastLayoutIff(steps);
  }

  // ---- two chains the layouts do not serve ----

  /** Joins a variable over the edge from another one, with predicate 7. */
  function OverSeven(from: nat, v: nat): Edge {
    Edge(EdgeInfo(from, 7, v, SP2O), EdgeConstantInfo(false, true, false))
  }

  predicate JoinsOver(step: StepOperation, v: nat, stored: bool, edges: seq<Edge>) {
    step == JoinNode(FeedOneNode(v, stored, edges), true, false)
  }

  /** Scans variable 0, joins variable 1 without storing it, and stores variable 2. */
  predicate SkipsOne(steps: seq<StepOperation>) {
    && |steps| >= 3 && JoinsOver(steps[0], 0, true, [])
    && JoinsOver(steps[1], 1, false, [OverSeven(0, 1)]) && JoinsOver(steps[2], 2, true, [OverSeven(0, 2)])
  }

  lemma EdgeFits(step: StepOperation, v: nat, stored: bool, from: nat, known: set<nat>)
    requires JoinsOver(step, v, stored, [OverSeven(from, v)]) && from in known && v !in known
    ensures StepFits(step, known) && StepReads(step) == {from}
  {
    var e := OverSeven(from, v);
    assert e.Reads() == {from} && e in step.node.edges;
  }

  lemma FirstTwoLayers(steps: seq<StepOperation>)
    requires SkipsOne(steps)
    ensures ColumnsAt(steps, 0) == Columns(map[0 := 0], map[0 := 0]) == TemplateAt(steps, 0) == ColumnsAt(steps, 1)
    ensures TemplateAt(steps, 1) == Columns(map[0 := 0, 1 := 1], map[0 := 0, 1 := 1])
  {
  }

  lemma SkippedFits(steps: seq<StepOperation>)
    requires SkipsOne(steps)
    ensures StepFits(steps[0], {}) && FitsAt(steps, 1) && FitsAt(steps, 2)
  {
    FirstTwoLayers(steps);
    EdgeFits(steps[1], 1, false, 0, {0});
    EdgeFits(steps[2], 2, true, 0, {0});
  }

  lemma TwoColumns(posId: PositionValue)
    requires posId == map[0 := 0, 1 := 2]
    ensures |posId| == 2
  {
    DomainSize(posId, 2);
  }

  lemma SkippedColumns(steps: seq<StepOperation>) returns (table: Columns, layout: Columns)
    requires SkipsOne(steps)
    ensures StepFits(steps[0], {}) && FitsAt(steps, 1) && FitsAt(steps, 2)
    ensures table == ColumnsAt(steps, 2) == Columns(map[0 := 0, 2 := 1], map[0 := 0, 1 := 2]) && |table.posId| == 2
    ensures layout == TemplateAt(steps, 2) == Columns(map[0 := 0, 1 := 1, 2 := 2], map[0 := 0, 1 := 1, 2 := 2])
  {
    SkippedFits(steps);
    FirstTwoLayers(steps);
    table, layout := ColumnsAt(steps, 2), TemplateAt(steps, 2);
    TwoColumns(table.posId);
  }

  lemma SkippedCount(steps: seq<StepOperation>)
    requires SkipsOne(steps)
    ensures UnstoredCount(steps, 2) == 1
  {
    assert UnstoredCount(steps, 0) == 0 && UnstoredCount(steps, 1) == 1;
  }

  lemma NotInPlace(steps: seq<StepOperation>, i: nat)
    requires SkipsOne(steps) && 2 < i < |steps| && 2 in StepReads(steps[i])
    ensures !ReadsInPlace(steps)
  {
    SkippedCount(steps);
    assert 2 in StepReads(steps[i]) * Stores(steps, 2);
  }

  lemma ReadsOneOf(from: nat, v: nat, idPos: PositionValue, row: Row)
    ensures Readable(OverSeven(from, v), idPos, row) <==> from in idPos && idPos[from] < |row|
  {
    assert OverSeven(from, v).Reads() == {from};
  }

  lemma FitsThere(steps: seq<StepOperation>, i: nat, v: nat, stored: bool, from: nat)
    requires 0 < i < |steps| && Starts(steps[0]) && JoinsOver(steps[i], v, stored, [OverSeven(from, v)])
    requires from in ColumnsAt(steps, i - 1).idPos && v !in ColumnsAt(steps, i - 1).idPos
    ensures FitsAt(steps, i) && from in StepReads(steps[i])
  {
    EdgeFits(steps[i], v, stored, from, ColumnsAt(steps, i - 1).idPos.Keys);
  }

  lemma AllFit(steps: seq<StepOperation>)
    requires 4 <= |steps| <= 5 && Starts(steps[0]) && StepFits(steps[0], {}) && FitsAt(steps, 1) && FitsAt(steps, 2) && FitsAt(steps, 3)
    requires |steps| == 5 ==> FitsAt(steps, 4)
    ensures ChainFits(steps)
  {
    forall i | 0 < i < |steps| ensures FitsAt(steps, i) {
      assert i == 1 || i == 2 || i == 3 || i == 4;
    }
  }

  /** Reading variable 2 in the next step: the layout points behind the end of every row of the table. */
  lemma ReadsPastTheEnd(steps: seq<StepOperation>, row: Row)
    requires SkipsOne(steps) && |steps| == 4 && JoinsOver(steps[3], 3, true, [OverSeven(2, 3)]) && |row| == 2
    ensures ChainFits(steps) && !ReadsInPlace(steps) && |ColumnsAt(steps, 2).posId| == 2
    ensures Readable(OverSeven(2, 3), ColumnsAt(steps, 2).idPos, row) && !Readable(OverSeven(2, 3), TemplateAt(steps, 2).idPos, row)
  {
    var table, layout := SkippedColumns(steps);
    FitsThere(steps, 3, 3, true, 2);
    AllFit(steps);
    NotInPlace(steps, 3);
    ReadsOneOf(2, 3, table.idPos, row);
    ReadsOneOf(2, 3, layout.idPos, row);
  }

  lemma OneMoreColumn(steps: seq<StepOperation>) returns (table: Columns, layout: Columns)
    requires SkipsOne(steps) && |steps| > 3 && JoinsOver(steps[3], 3, true, [OverSeven(0, 3)])
    ensures table == ColumnsAt(steps, 3) && layout == TemplateAt(steps, 3)
    ensures table.idPos == map[0 := 0, 2 := 1, 3 := 2] && 2 in layout.idPos && layout.idPos[2] == 2
  {
    var before, layoutBefore := SkippedColumns(steps);
    table, layout := NextColumns(steps[3], before), TemplateStep(steps[3], layoutBefore);
  }

  /** Reading it one step later: the layout points at variable 3, so the step joins over the wrong variable. */
  lemma ReadsWrongColumn(env: Env, steps: seq<StepOperation>, row: Row)
    requires SkipsOne(steps) && |steps| == 5 && JoinsOver(steps[3], 3, true, [OverSeven(0, 3)]) && JoinsOver(steps[4], 4, true, [OverSeven(2, 4)])
    requires |row| == 3
    ensures ChainFits(steps) && !ReadsInPlace(steps)
    ensures Readable(OverSeven(2, 4), ColumnsAt(steps, 3).idPos, row) && Readable(OverSeven(2, 4), TemplateAt(steps, 3).idPos, row)
    ensures EdgeList(env.g, OverSeven(2, 4), ColumnsAt(steps, 3).idPos, row) == Rdf.ObjIdsBySubPre(env.g, row[1], 7)
    ensures EdgeList(env.g, OverSeven(2, 4), TemplateAt(steps, 3).idPos, row) == Rdf.ObjIdsBySubPre(env.g, row[2], 7)
  {
    var _, _ := SkippedColumns(steps);
    FitsThere(steps, 3, 3, true, 0);
    var table, layout := OneMoreColumn(steps);
    FitsThere(steps, 4, 4, true, 2);
    AllFit(steps);
    NotInPlace(steps, 4);
    ListThrough(env.g, 2, 4, table.idPos, row);
    ListThrough(env.g, 2, 4, layout.idPos, row);
  }

  lemma ListThrough(g: Rdf.Store, from: nat, v: nat, idPos: PositionValue, row: Row)
    requires from in idPos && idPos[from] < |row|
    ensures Readable(OverSeven(from, v), idPos, row)
    ensures EdgeList(g, OverSeven(from, v), idPos, row) == Rdf.ObjIdsBySubPre(g, row[idPos[from]], 7)
  {
    assert OverSeven(from, v).Reads() == {from};
  }
}
