/**
 Breadth-first execution of a plan tree, and what its result means: each solution of the tree's edges
 once, unless a join of an empty table has dropped the columns that a later step wants to read.
 */
module BreadthFirst {
  import opened TableOperator
  import opened Semantics
  import opened StepSpec
  import ExecutorFilter
  import opened PlanChain
  import opened DepthFirst
  import HashJoin
  import TableJoin

  datatype PlanTree =
    | Leaf(step: StepOperation)
    | Unary(step: StepOperation, child: PlanTree)
    | Binary(step: StepOperation, left: PlanTree, right: PlanTree)
  {
    /** The variables a table of the tree has columns for. */
    function Vars(): set<nat> {
      match this
      case Leaf(step) => StepVars(step)
      case Unary(step, child) => child.Vars() + (if step.JoinNode? && !step.node.addedIntoTable then {} else StepVars(step))
      case Binary(_, left, right) => left.Vars() + right.Vars()
    }

    /** The edges the tree has applied. */
    function Constraints(): set<Constraint> {
      match this
      case Leaf(step) => StepConstraints(step)
      case Unary(step, child) => child.Constraints() + StepConstraints(step)
      case Binary(_, left, right) => left.Constraints() + right.Constraints()
    }
  }

  function StepVars(step: StepOperation): set<nat> {
    match step
    case JoinNode(feed, _, _) => {feed.nodeToJoin}
    case JoinTwoNodes(feed, _) => {feed.nodeToJoin1, feed.nodeToJoin2}
    case _ => {}
  }

  function StepConstraints(step: StepOperation): set<Constraint> {
    match step
    case JoinNode(feed, _, _) => ConstraintsOf(feed.edges)
    case JoinTwoNodes(feed, _) => {ConstraintOf(feed.edge)}
    case EdgeCheck(feed, _) => ConstraintsOf(feed.edges)
    case JoinTable(_, _) => {}
  }

  /** Whether the tree's table may come out without columns: a table join may drop them, an edge check keeps them dropped. */
  predicate MayLoseColumns(tree: PlanTree) {
    tree.Binary? || (tree.Unary? && tree.step.EdgeCheck? && MayLoseColumns(tree.child))
  }

  /** The shapes plan construction makes; a node joined on top of a table join reads one of its columns. Only at
      a leaf is a wrong operation left to the execution to refuse. */
  predicate TreeFits(tree: PlanTree) {
    match tree
    case Leaf(step) => Starts(step) ==> StepFits(step, {})
    case Unary(step, child) =>
      TreeFits(child) && StepFits(step, child.Vars()) && (MayLoseColumns(child) && Starts(step) ==> !StepFits(step, {}))
    case Binary(step, left, right) =>
      TreeFits(left) && TreeFits(right) && step.JoinTable? && ShareExactly(step.publicVariables, left.Vars(), right.Vars())
  }

  predicate ShareExactly(variables: seq<nat>, a: set<nat>, b: set<nat>) {
    (set v | v in variables) == a * b
  }

  datatype Table = Table(columns: Columns, rows: seq<Row>)

  const NO_TABLE := Table(Columns(map[], map[]), [])

  datatype Outcome = Done | Thrown | ReadsMissingColumn

  // ---- what an execution computes ----

  ghost predicate StartsWith(env: Env, step: StepOperation, t: Table) {
    Starts(step) && StepReadable(step, map[], []) && t == Table(InitialColumns(step), InitialRows(env, step))
  }

  /** A table without columns counts as no table yet, so a join on top of it starts over. */
  ghost predicate ContinuesWith(env: Env, step: StepOperation, before: Table, t: Table) {
    if before.columns.idPos == map[] && Starts(step) then StartsWith(env, step, t)
    else
      && AllStepReadable(step, before.columns.idPos, before.rows)
      && t == Table(NextColumns(step, before.columns), StepRows(env, step, before.columns.idPos, before.rows))
  }

  ghost predicate JoinsTo(a: Table, b: Table, t: Table) {
    if a.rows == [] || b.rows == [] then t == NO_TABLE
    else
      && Shaped(t.columns, t.rows) && t.columns.idPos.Keys == a.columns.idPos.Keys + b.columns.idPos.Keys
      && HashJoin.IsBagJoin(a.rows, a.columns.posId, b.rows, b.columns.posId, t.rows, t.columns.idPos, |t.columns.posId|)
  }

  ghost predicate Computes(env: Env, tree: PlanTree, t: Table) {
    match tree
    case Leaf(step) => StartsWith(env, step, t)
    case Unary(step, child) => exists before :: Computes(env, child, before) && ContinuesWith(env, step, before, t)
    case Binary(_, left, right) => exists a, b :: Computes(env, left, a) && Computes(env, right, b) && JoinsTo(a, b, t)
  }

  /** A step that starts over although its edges read variables of the table it should have extended. */
  ghost predicate StepStuck(step: StepOperation, before: Table) {
    before.columns.idPos == map[] && Starts(step) && !StepFits(step, {})
  }

  ghost predicate Stuck(env: Env, tree: PlanTree) {
    match tree
    case Leaf(_) => false
    case Unary(step, child) => Stuck(env, child) || exists before :: Computes(env, child, before) && StepStuck(step, before)
    case Binary(_, left, right) => Stuck(env, left) || Stuck(env, right)
  }

  predicate LeavesStart(tree: PlanTree) {
    match tree
    case Leaf(step) => Starts(step)
    case Unary(_, child) => LeavesStart(child)
    case Binary(_, left, right) => LeavesStart(left) && LeavesStart(right)
  }

  ghost function TableOf(t: IntermediateResult): Table
    reads t
  {
    Table(Columns(t.idPos, t.posId), t.values)
  }

  /** A computed table is well shaped and has the tree's variables as columns, or no columns and no rows. */
  ghost predicate HasVars(t: Table, variables: set<nat>) {
    Shaped(t.columns, t.rows) && (t == NO_TABLE || t.columns.idPos.Keys == variables)
  }

  lemma InitialHasVars(env: Env, step: StepOperation)
    requires Starts(step) && StepFits(step, {})
    ensures StepReadable(step, map[], [])
    ensures HasVars(Table(InitialColumns(step), InitialRows(env, step)), StepVars(step))
  {
    InitialShape(env, step);
  }

  lemma NextHasVars(env: Env, step: StepOperation, before: Table, variables: set<nat>)
    requires HasVars(before, variables) && StepFits(step, variables) && !(before.columns.idPos == map[] && Starts(step))
    ensures AllStepReadable(step, before.columns.idPos, before.rows)
    ensures HasVars(Table(NextColumns(step, before.columns), StepRows(env, step, before.columns.idPos, before.rows)),
                    variables + (if step.JoinNode? && !step.node.addedIntoTable then {} else StepVars(step)))
  {
    if before == NO_TABLE {
      assert StepRows(env, step, map[], []) == [];
    } else {
      StepKeepsShape(env, step, before.columns, before.rows);
    }
  }

  /** Extends or filters the table of the child, or starts over if the child's table has no columns. */
  method RunUnary(env: Env, step: StepOperation, before: IntermediateResult, ghost variables: set<nat>)
    returns (outcome: Outcome, table: IntermediateResult)
    requires env.CachesSorted() && HasVars(TableOf(before), variables) && StepFits(step, variables)
    modifies before`values
    ensures fresh(table) && !outcome.Thrown?
    ensures outcome.Done? ==> ContinuesWith(env, step, old(TableOf(before)), TableOf(table))
    ensures outcome.Done? ==> HasVars(TableOf(table), variables + (if step.JoinNode? && !step.node.addedIntoTable then {} else StepVars(step)))
                              || (old(before.idPos) == map[] && HasVars(TableOf(table), StepVars(step)))
    ensures outcome.ReadsMissingColumn? <==> StepStuck(step, old(TableOf(before)))
  {
    outcome := Done;
    if before.HasNoColumns() && Starts(step) {
      if !StepFits(step, {}) {
        table := new IntermediateResult();
        return ReadsMissingColumn, table;
      }
      InitialHasVars(env, step);
      table := InitialTable(env, step);
      return;
    }
    NextHasVars(env, step, TableOf(before), variables);
    table := RunOnTable(env, step, before, variables);
  }

  method RunOnTable(env: Env, step: StepOperation, before: IntermediateResult, ghost variables: set<nat>)
    returns (table: IntermediateResult)
    requires env.CachesSorted() && StepFits(step, variables) && AllStepReadable(step, before.idPos, before.values)
    modifies before`values
    ensures fresh(table)
    ensures table.values == StepRows(env, step, before.idPos, old(before.values))
    ensures Columns(table.idPos, table.posId) == NextColumns(step, Columns(before.idPos, before.posId))
  {
    var remainOld := step.remainOld;
    if step.EdgeCheck? {
      assert forall e :: e in step.filter.edges ==> ExecutorFilter.AllCheckable(e, before.idPos, before.values);
      table := ExecutorFilter.ANodeEdgesConstraintFilter(env, step.filter, before, remainOld);
    } else {
      table := RunStep(env, step, before, remainOld, variables);
    }
  }

  ghost predicate TreeTable(t: Table, tree: PlanTree) {
    && HasVars(t, tree.Vars())
    && (t.columns.idPos == map[] ==> MayLoseColumns(tree))
  }

  ghost predicate Answers(env: Env, tree: PlanTree, outcome: Outcome, t: Table) {
    match outcome
    case Done => LeavesStart(tree) && Computes(env, tree, t) && TreeTable(t, tree)
    case Thrown => !LeavesStart(tree)
    case ReadsMissingColumn => Stuck(env, tree)
  }

  method RunLeaf(env: Env, step: StepOperation) returns (outcome: Outcome, table: IntermediateResult)
    requires env.CachesSorted() && TreeFits(Leaf(step))
    ensures fresh(table) && Answers(env, Leaf(step), outcome, TableOf(table))
  {
    if !Starts(step) {
      table := new IntermediateResult();
      return Thrown, table;
    }
    InitialHasVars(env, step);
    table := InitialTable(env, step);
    outcome := Done;
  }

  lemma UnaryAnswers(env: Env, step: StepOperation, child: PlanTree, before: Table, outcome: Outcome, t: Table)
    requires TreeFits(Unary(step, child)) && Answers(env, child, Done, before)
    requires outcome.Done? ==> ContinuesWith(env, step, before, t)
    requires outcome.Done? ==> before.columns.idPos != map[] || !Starts(step)
    requires outcome.Done? ==> HasVars(t, Unary(step, child).Vars())
    requires outcome.ReadsMissingColumn? ==> StepStuck(step, before)
    requires !outcome.Thrown?
    ensures Answers(env, Unary(step, child), outcome, t)
  {
  }

  /**
   Executes a plan tree bottom up. Errors at any place end the execution; a step that would read a
   column its input no longer has is reported instead of read.
   */
  method ExecutionBreathFirst(env: Env, tree: PlanTree) returns (outcome: Outcome, table: IntermediateResult)
    requires env.CachesSorted() && TreeFits(tree)
    ensures fresh(table) && Answers(env, tree, outcome, TableOf(table))
    decreases tree
  {
    match tree
    case Leaf(step) =>
      outcome, table := RunLeaf(env, step);
    case Unary(step, child) =>
      outcome, table := ExecutionBreathFirst(env, child);
      if outcome.Done? {
        ghost var before := TableOf(table);
        var next;
        outcome, next := RunUnary(env, step, table, child.Vars());
        UnaryAnswers(env, step, child, before, outcome, TableOf(next));
        table := next;
      }
    case Binary(step, left, right) =>
      outcome, table := ExecutionBreathFirst(env, left);
      if outcome.Done? {
        var rightTable;
        outcome, rightTable := ExecutionBreathFirst(env, right);
        if outcome.Done? {
          outcome, table := RunJoinTable(env, tree, table, rightTable);
        } else {
          table := rightTable;
        }
      }
  }

  lemma SharedColumns(a: Table, aVars: set<nat>, b: Table, bVars: set<nat>, variables: seq<nat>)
    requires HasVars(a, aVars) && HasVars(b, bVars) && ShareExactly(variables, aVars, bVars)
    requires a.rows != [] && b.rows != []
    ensures forall v :: v in variables <==> v in a.columns.idPos && v in b.columns.idPos
  {
    forall v ensures v in variables <==> v in aVars * bVars {
      assert v in variables <==> v in (set x | x in variables);
    }
  }

  lemma JoinAnswers(env: Env, tree: PlanTree, a: Table, b: Table, t: Table)
    requires tree.Binary? && Answers(env, tree.left, Done, a) && Answers(env, tree.right, Done, b)
    requires JoinsTo(a, b, t)
    ensures Answers(env, tree, Done, t)
  {
    if a.rows != [] && b.rows != [] {
      assert a != NO_TABLE && b != NO_TABLE;
    }
  }

  ghost predicate WellFormed(t: Table) {
    MutuallyInverse(t.columns.idPos, t.columns.posId, |t.columns.posId|) && TableJoin.Rectangle(t.rows, |t.columns.posId|)
  }

  method JoinTables(left: IntermediateResult, right: IntermediateResult, variables: seq<nat>, remainOld: bool) returns (table: IntermediateResult)
    requires left != right && WellFormed(TableOf(left)) && WellFormed(TableOf(right))
    requires left.values != [] && right.values != [] ==> forall v :: v in variables <==> v in left.idPos && v in right.idPos
    modifies left`values, right`values
    ensures fresh(table) && JoinsTo(old(TableOf(left)), old(TableOf(right)), TableOf(table))
  {
    var _, joined := HashJoin.JoinTwoTables(left, right, variables, remainOld);
    table := joined;
  }

  method RunJoinTable(env: Env, tree: PlanTree, left: IntermediateResult, right: IntermediateResult)
    returns (outcome: Outcome, table: IntermediateResult)
    requires tree.Binary? && TreeFits(tree) && left != right
    requires Answers(env, tree.left, Done, TableOf(left)) && Answers(env, tree.right, Done, TableOf(right))
    modifies left`values, right`values
    ensures fresh(table) && Answers(env, tree, outcome, TableOf(table))
  {
    ghost var a, b := TableOf(left), TableOf(right);
    if left.values != [] && right.values != [] {
      SharedColumns(a, tree.left.Vars(), b, tree.right.Vars(), tree.step.publicVariables);
    }
    table := JoinTables(left, right, tree.step.publicVariables, tree.step.remainOld);
    JoinAnswers(env, tree, a, b, TableOf(table));
    outcome := Done;
  }
}
