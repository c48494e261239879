/**
 Left-deep plans: one variable after the other in a connected order. They always go through, and with a
 limit their depth-first execution returns the first answers of the breadth-first one.
 */
module LimitedQuery {
  import opened TableOperator
  import opened Semantics
  import opened PlanChain
  import opened ChainLayouts
  import opened DepthSpec
  import opened DepthFirst
  import opened DepthBreadth
  import opened BasicGraphPattern
  import opened JoinGraph
  import opened PlanCost
  import opened PlanTreeBuilder
  import BF = BreadthFirst
  import opened PlanMeaning
  import opened QueryAnswer

  // ---- connected orders ----

  /** The left-deep plan of an order of variables. */
  function OrderShape(order: seq<nat>): Shape
    requires order != []
  {
    if |order| == 1 then Scan(order[0]) else Extend(OrderShape(order[..|order| - 1]), order[|order| - 1])
  }

  /** Each variable is new and next to an earlier one. */
  ghost predicate ConnectedOrder(g: Graph, order: seq<nat>) {
    && order != [] && (forall v :: v in order ==> v in g.nodes)
    && forall i :: 0 < i < |order| ==> order[i] !in order[..i] && g.Touches(Elements(order[..i]), order[i])
  }

  lemma {:induction false} OrderVars(order: seq<nat>)
    requires order != []
    ensures OrderShape(order).Vars() == Elements(order)
    decreases |order|
  {
    if |order| > 1 {
      OrderVars(order[..|order| - 1]);
      assert order == order[..|order| - 1] + [order[|order| - 1]];
      ElementsSnoc(order[..|order| - 1], order[|order| - 1]);
    } else {
      assert order == [order[0]];
    }
  }

  predicate LeftDeep(shape: Shape) {
    match shape
    case Scan(_) => true
    case Extend(sub, _) => LeftDeep(sub)
    case P2so(_, _) => true
    case Join(_, _) => false
  }

  lemma {:induction false} OrderAllowed(bgp: Patterns, g: Graph, order: seq<nat>)
    requires ConnectedOrder(g, order)
    ensures Allowed(g, OrderShape(order), true) && LeftDeep(OrderShape(order)) && PairsSingle(bgp, OrderShape(order))
    decreases |order|
  {
    assert order[0] in order;
    if |order| > 1 {
      var shorter, last := order[..|order| - 1], order[|order| - 1];
      assert last in order && forall v :: v in shorter ==> v in order;
      assert forall i :: 0 < i < |shorter| ==> shorter[..i] == order[..i] && shorter[i] == order[i];
      OrderAllowed(bgp, g, shorter);
      OrderVars(shorter);
      assert g.Touches(Elements(shorter), last) && last !in Elements(shorter);
    }
  }

  /** Without table joins no columns are ever lost. */
  lemma {:induction false} LeftDeepNeverStuck(env: Env, bgp: Patterns, distinct: bool, shape: Shape)
    requires PairsSingle(bgp, shape) && LeftDeep(shape)
    ensures !ReadsLost(env, TreeOf(bgp, distinct, shape)) && !LosesColumns(env, TreeOf(bgp, distinct, shape))
  {
    match shape
    case Scan(_) =>
    case Extend(sub, _) => LeftDeepNeverStuck(env, bgp, distinct, sub);
    case P2so(_, _) =>
  }

  /**
   For every connected order of the query's variables, executing the left-deep plan goes through and
   returns every answer exactly once and nothing else.
   */
  lemma OrderAnswered(env: Env, bgp: Patterns, feeds: seq<FeedOneNode>, given: map<nat, seq<nat>>, g: Graph, order: seq<nat>, distinct: bool,
                      outcome: BF.Outcome, t: BF.Table, mu: Assignment)
    requires EnvFits(env, bgp) && CachesFit(env, bgp, feeds, given) && IsJoinGraph(g, bgp)
    requires ConnectedOrder(g, order) && Elements(order) == SoVars(bgp) && mu.Keys == SoVars(bgp)
    requires PairsSingle(bgp, OrderShape(order)) && BF.Answers(env, TreeOf(bgp, distinct, OrderShape(order)), outcome, t)
    ensures outcome.Done?
    ensures IsAnswer(env.g, bgp, given, mu) <==> exists i :: RowFor(t, i, mu)
    ensures forall i, j :: RowFor(t, i, mu) && RowFor(t, j, mu) ==> i == j
  {
    OrderAllowed(bgp, g, order);
    OrderVars(order);
    QueryAnswered(env, bgp, feeds, given, g, OrderShape(order), distinct, outcome, t, mu);
    LeftDeepNeverStuck(env, bgp, distinct, OrderShape(order));
  }

  // ---- the chain of a left-deep tree ----

  /** The operations of a tree, children before their parent. */
  function PostOrder(tree: BF.PlanTree): seq<StepOperation> {
    match tree
    case Leaf(step) => [step]
    case Unary(step, child) => PostOrder(child) + [step]
    case Binary(step, left, right) => PostOrder(left) + PostOrder(right) + [step]
  }

  /** Collects the operations in execution order. */
  method PreTravel(tree: BF.PlanTree, before: seq<StepOperation>) returns (joinOrder: seq<StepOperation>)
    ensures joinOrder == before + PostOrder(tree)
  {
    joinOrder := before;
    match tree
    case Leaf(step) =>
      joinOrder := joinOrder + [step];
    case Unary(step, child) =>
      joinOrder := PreTravel(child, joinOrder);
      joinOrder := joinOrder + [step];
    case Binary(step, left, right) =>
      joinOrder := PreTravel(left, joinOrder);
      joinOrder := PreTravel(right, joinOrder);
      joinOrder := joinOrder + [step];
  }

  predicate IsChain(tree: BF.PlanTree) {
    match tree
    case Leaf(_) => true
    case Unary(_, child) => IsChain(child)
    case Binary(_, _, _) => false
  }

  /** Read back as a tree, the operations of a chain are the chain. */
  lemma {:induction false} PostOrderInverse(tree: BF.PlanTree)
    requires IsChain(tree)
    ensures PostOrder(tree) != [] && ChainTree(PostOrder(tree)) == tree
  {
    if tree.Unary? {
      PostOrderInverse(tree.child);
      var steps := PostOrder(tree);
      assert steps[..|steps| - 1] == PostOrder(tree.child);
    }
  }

  lemma {:induction false} ChainStarts(tree: BF.PlanTree)
    requires IsChain(tree) && BF.LeavesStart(tree)
    ensures Starts(PostOrder(tree)[0])
  {
    if tree.Unary? {
      ChainStarts(tree.child);
      PostOrderInverse(tree.child);
    }
  }

  /** The operations of a chain that fits as a tree fit as a chain. */
  lemma {:induction false} ChainOfTreeFits(tree: BF.PlanTree)
    requires IsChain(tree) && BF.TreeFits(tree) && BF.LeavesStart(tree)
    ensures ChainFits(PostOrder(tree))
  {
    ChainStarts(tree);
    if tree.Unary? {
      var shorter := PostOrder(tree.child);
      ChainOfTreeFits(tree.child);
      PostOrderInverse(tree.child);
      ChainVars(shorter);
      OneMoreFits(shorter, tree.step);
    }
  }

  lemma OneMoreFits(steps: seq<StepOperation>, last: StepOperation)
    requires ChainFits(steps) && StepFits(last, ColumnsAt(steps, |steps| - 1).idPos.Keys)
    ensures ChainFits(steps + [last])
  {
    var longer := steps + [last];
    assert longer[..|steps|] == steps;
    NewestFits(steps, last, longer);
    forall i | 0 < i < |steps| ensures FitsAt(longer, i) {
      assert FitsAt(steps, i);
      EarlierFits(steps, longer, i);
    }
    LongerFits(steps, last, longer);
  }

  lemma LongerFits(steps: seq<StepOperation>, last: StepOperation, longer: seq<StepOperation>)
    requires |steps| > 0 && |longer| == |steps| + 1 && longer[0] == steps[0] && Starts(steps[0]) && StepFits(steps[0], {})
    requires FitsAt(longer, |steps|) && forall i :: 0 < i < |steps| ==> FitsAt(longer, i)
    ensures ChainFits(longer)
  {
  }

  lemma EarlierFits(steps: seq<StepOperation>, longer: seq<StepOperation>, i: nat)
    requires 0 < i < |steps| < |longer| && longer[..|steps|] == steps && Starts(steps[0]) && FitsAt(steps, i)
    ensures Starts(longer[0]) && FitsAt(longer, i)
  {
    var columns := ColumnsAt(steps, i - 1);
    ColumnsKept(steps, longer, i - 1);
    assert longer[i] == longer[..|steps|][i];
    FitsBy(longer, i, steps[i], columns);
  }

  lemma NewestFits(steps: seq<StepOperation>, last: StepOperation, longer: seq<StepOperation>)
    requires 0 < |steps| < |longer| && longer[..|steps|] == steps && longer[|steps|] == last
    requires Starts(steps[0]) && StepFits(last, ColumnsAt(steps, |steps| - 1).idPos.Keys)
    ensures Starts(longer[0]) && FitsAt(longer, |steps|)
  {
    var columns := ColumnsAt(steps, |steps| - 1);
    ColumnsKept(steps, longer, |steps| - 1);
    FitsBy(longer, |steps|, last, columns);
  }

  lemma ColumnsKept(steps: seq<StepOperation>, longer: seq<StepOperation>, layer: nat)
    requires layer < |steps| < |longer| && longer[..|steps|] == steps && Starts(steps[0])
    ensures Starts(longer[0]) && ColumnsAt(longer, layer) == ColumnsAt(steps, layer)
  {
    assert longer[0] == longer[..|steps|][0];
    ColumnsOfPrefix(longer, |steps|, layer);
  }

  lemma {:induction false} LeftDeepChain(bgp: Patterns, distinct: bool, shape: Shape)
    requires PairsSingle(bgp, shape) && LeftDeep(shape)
    ensures IsChain(TreeOf(bgp, distinct, shape)) && AllStored(PostOrder(TreeOf(bgp, distinct, shape)))
  {
    if shape.Extend? {
      LeftDeepChain(bgp, distinct, shape.sub);
    }
  }

  /**
   A query with a limit of at least one, planned left-deep over at least two steps: the depth-first
   search returns the first rows of what the breadth-first execution of the same plan returns.
   */
  lemma LimitedAnswers(env: Env, bgp: Patterns, g: Graph, shape: Shape, distinct: bool, limit: nat, found: seq<Row>, outcome: BF.Outcome, t: BF.Table)
    requires QueryOk(bgp) && EnvFits(env, bgp) && IsJoinGraph(g, bgp) && Allowed(g, shape, true) && PairsSingle(bgp, shape) && LeftDeep(shape)
    requires shape.Extend? && limit > 0
    requires ChainFits(PostOrder(TreeOf(bgp, distinct, shape)))
    requires LimitedTo(env, PostOrder(TreeOf(bgp, distinct, shape)), limit, found)
    requires BF.Answers(env, TreeOf(bgp, distinct, shape), outcome, t)
    ensures outcome.Done? && found == FirstOf(t.rows, limit)
  {
    var tree := TreeOf(bgp, distinct, shape);
    LeftDeepChain(bgp, distinct, shape);
    PostOrderInverse(tree);
    PostOrderInverse(tree.child);
    DepthFirstIsPrefix(env, PostOrder(tree), limit, found, outcome, t);
  }

  /** The depth-first search may be called on every such plan: its operations form a fitting chain that stores its nodes. */
  lemma SearchApplies(env: Env, bgp: Patterns, g: Graph, shape: Shape, distinct: bool)
    requires QueryOk(bgp) && EnvFits(env, bgp) && IsJoinGraph(g, bgp) && Allowed(g, shape, true) && PairsSingle(bgp, shape) && LeftDeep(shape)
    ensures ChainFits(PostOrder(TreeOf(bgp, distinct, shape))) && AllStored(PostOrder(TreeOf(bgp, distinct, shape)))
    ensures ReadsInPlace(PostOrder(TreeOf(bgp, distinct, shape)))
  {
    TreeFitsShape(env, bgp, g, distinct, shape);
    TreeVars(bgp, distinct, shape);
    LeftDeepChain(bgp, distinct, shape);
    StoredReadsInPlace(PostOrder(TreeOf(bgp, distinct, shape)));
    ChainOfTreeFits(TreeOf(bgp, distinct, shape));
  }

  /** The layout that belongs to the last layer is that of the breadth-first table. */
  lemma LimitedColumns(env: Env, bgp: Patterns, shape: Shape, distinct: bool, steps: seq<StepOperation>, t: BF.Table)
    requires PairsSingle(bgp, shape) && LeftDeep(shape) && steps == PostOrder(TreeOf(bgp, distinct, shape)) && ChainFits(steps)
    requires BF.Computes(env, TreeOf(bgp, distinct, shape), t)
    ensures TemplateAt(steps, |steps| - 1) == t.columns
  {
    LeftDeepChain(bgp, distinct, shape);
    StoredColumns(env, TreeOf(bgp, distinct, shape), steps, t);
  }

  lemma StoredColumns(env: Env, tree: BF.PlanTree, steps: seq<StepOperation>, t: BF.Table)
    requires IsChain(tree) && steps == PostOrder(tree) && ChainFits(steps) && AllStored(steps) && BF.Computes(env, tree, t)
    ensures TemplateAt(steps, |steps| - 1) == t.columns
  {
    assert ChainTree(steps) == tree by {
      PostOrderInverse(tree);
    }
    ChainComputes(env, steps, t);
    LastLayoutIff(steps);
  }

  /** The first rows of whatever the breadth-first execution of a tree returns, under the same columns. */
  ghost predicate FirstRowsOf(env: Env, tree: BF.PlanTree, limit: nat, columns: Columns, rows: seq<Row>) {
    forall outcome, t :: BF.Answers(env, tree, outcome, t) ==>
      outcome.Done? && rows == FirstOf(t.rows, limit) && (rows != [] ==> columns == t.columns)
  }

  /** A left-deep plan of the search's class over at least two steps. */
  ghost predicate LimitedPlan(env: Env, bgp: Patterns, g: Graph, shape: Shape) {
    && QueryOk(bgp) && EnvFits(env, bgp) && IsJoinGraph(g, bgp)
    && Allowed(g, shape, true) && PairsSingle(bgp, shape) && LeftDeep(shape) && shape.Extend?
  }

  /** Executes a left-deep plan with a limit: its operations are collected, and searched depth first. */
  method DoLimitedQuery(env: Env, bgp: Patterns, ghost g: Graph, shape: Shape, distinct: bool, limit: nat) returns (table: IntermediateResult)
    requires env.CachesSorted() && LimitedPlan(env, bgp, g, shape) && limit > 0
    ensures fresh(table)
    ensures FirstRowsOf(env, TreeOf(bgp, distinct, shape), limit, Columns(table.idPos, table.posId), table.values)
  {
    var tree := TreeOf(bgp, distinct, shape);
    var joinOrder := PreTravel(tree, []);
    table := SearchOrder(env, bgp, g, shape, distinct, limit, joinOrder);
  }

  method SearchOrder(env: Env, ghost bgp: Patterns, ghost g: Graph, ghost shape: Shape, ghost distinct: bool, limit: nat, joinOrder: seq<StepOperation>)
    returns (table: IntermediateResult)
    requires env.CachesSorted() && LimitedPlan(env, bgp, g, shape) && limit > 0
    requires joinOrder == [] + PostOrder(TreeOf(bgp, distinct, shape))
    ensures fresh(table)
    ensures FirstRowsOf(env, TreeOf(bgp, distinct, shape), limit, Columns(table.idPos, table.posId), table.values)
  {
    OrderSearchable(env, bgp, g, shape, distinct, joinOrder);
    table := ExecutionDepthFirst(env, joinOrder, limit);
    LimitedRun(env, bgp, g, shape, distinct, limit, joinOrder, Columns(table.idPos, table.posId), table.values);
  }

  lemma OrderSearchable(env: Env, bgp: Patterns, g: Graph, shape: Shape, distinct: bool, joinOrder: seq<StepOperation>)
    requires LimitedPlan(env, bgp, g, shape) && joinOrder == [] + PostOrder(TreeOf(bgp, distinct, shape))
    ensures joinOrder == PostOrder(TreeOf(bgp, distinct, shape)) && ChainFits(joinOrder) && ReadsInPlace(joinOrder)
  {
    assert joinOrder == PostOrder(TreeOf(bgp, distinct, shape));
    SearchApplies(env, bgp, g, shape, distinct);
  }

  lemma LimitedRun(env: Env, bgp: Patterns, g: Graph, shape: Shape, distinct: bool, limit: nat, joinOrder: seq<StepOperation>,
                   columns: Columns, rows: seq<Row>)
    requires LimitedPlan(env, bgp, g, shape) && limit > 0 && joinOrder == PostOrder(TreeOf(bgp, distinct, shape))
    requires ChainFits(joinOrder) && LimitedTo(env, joinOrder, limit, rows)
    requires rows != [] ==> columns == TemplateAt(joinOrder, |joinOrder| - 1)
    ensures FirstRowsOf(env, TreeOf(bgp, distinct, shape), limit, columns, rows)
  {
    forall outcome, t | BF.Answers(env, TreeOf(bgp, distinct, shape), outcome, t)
      ensures outcome.Done? && rows == FirstOf(t.rows, limit) && (rows != [] ==> columns == t.columns)
    {
      LimitedAnswers(env, bgp, g, shape, distinct, limit, rows, outcome, t);
      LimitedColumns(env, bgp, shape, distinct, joinOrder, t);
    }
  }
}
