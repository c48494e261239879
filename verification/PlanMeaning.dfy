/**
 The meaning of a plan tree: when its execution goes through, and that its table then holds every
 solution of the tree's edges exactly once.
 */
module PlanMeaning {
  import opened TableOperator
  import opened Semantics
  import opened StepSpec
  import opened ExactSteps
  import opened ExactJoins
  import opened PlanChain
  import opened BreadthFirst

  /** A step whose edges are about the node it brings in, or about columns that are there. */
  ghost predicate StepMeans(env: Env, step: StepOperation, known: set<nat>) {
    match step
    case JoinNode(feed, _, _) =>
      feed.addedIntoTable && feed.edges != [] && BringsIn(feed.edges, feed.nodeToJoin, known) && Covered(env, feed.edges, feed.nodeToJoin)
    case JoinTwoNodes(feed, _) => BringsInTwo(feed, known) && CoveredTwo(env, feed)
    case EdgeCheck(feed, _) => true
    case JoinTable(_, _) => false
  }

  ghost predicate LeafMeans(env: Env, step: StepOperation) {
    match step
    case JoinNode(feed, _, _) => BringsIn(feed.edges, feed.nodeToJoin, {}) && (feed.edges == [] || Covered(env, feed.edges, feed.nodeToJoin))
    case JoinTwoNodes(feed, _) => BringsInTwo(feed, {}) && CoveredTwo(env, feed)
    case _ => false
  }

  ghost predicate TreeMeans(env: Env, tree: PlanTree) {
    match tree
    case Leaf(step) => LeafMeans(env, step)
    case Unary(step, child) => TreeMeans(env, child) && StepMeans(env, step, child.Vars())
    case Binary(_, left, right) => TreeMeans(env, left) && TreeMeans(env, right)
  }

  ghost predicate IsSolution(env: Env, tree: PlanTree, mu: Assignment) {
    mu.Keys == tree.Vars() && Satisfies(env, tree.Constraints(), mu)
  }

  ghost predicate Solvable(env: Env, tree: PlanTree) {
    exists mu :: IsSolution(env, tree, mu)
  }

  /** The tree's topmost table join has an input without solutions. */
  ghost predicate LosesColumns(env: Env, tree: PlanTree) {
    match tree
    case Leaf(_) => false
    case Unary(step, child) => step.EdgeCheck? && LosesColumns(env, child)
    case Binary(_, left, right) => !Solvable(env, left) || !Solvable(env, right)
  }

  /** Somewhere in the tree a node is joined on top of such a table. */
  ghost predicate ReadsLost(env: Env, tree: PlanTree) {
    match tree
    case Leaf(_) => false
    case Unary(step, child) => ReadsLost(env, child) || (Starts(step) && LosesColumns(env, child))
    case Binary(_, left, right) => ReadsLost(env, left) || ReadsLost(env, right)
  }

  /** The table holds every solution of the tree once; or the tree has no solutions and the table has lost its columns. */
  ghost predicate HoldsSolutions(env: Env, tree: PlanTree, t: Table) {
    if LosesColumns(env, tree) then t == NO_TABLE
    else t.columns.idPos.Keys == tree.Vars() && Exact(env, tree.Constraints(), t.columns.idPos, t.columns.posId, t.rows)
  }

  // ---- leaves and steps ----

  lemma InitialIsStep(env: Env, step: StepOperation)
    requires Starts(step) && StepFits(step, {}) && (step.JoinNode? ==> step.node.edges != [] && step.node.addedIntoTable)
    ensures AllStepReadable(step, map[], [[]]) && StepReadable(step, map[], [])
    ensures InitialRows(env, step) == StepRows(env, step, map[], [[]])
    ensures InitialColumns(step) == NextColumns(step, Columns(map[], map[]))
  {
    InitialShape(env, step);
    StepRowsSingle(env, step, map[], []);
  }

  lemma LeafJoinNodeExact(env: Env, step: StepOperation)
    requires env.CachesSorted() && step.JoinNode? && StepFits(step, {}) && LeafMeans(env, step)
    ensures StepReadable(step, map[], [])
    ensures Exact(env, ConstraintsOf(step.node.edges), InitialIdPos(step), InitialPosId(step), InitialRows(env, step))
  {
    InitialShape(env, step);
    if step.node.edges == [] {
      ScanExact(env, step);
      assert ConstraintsOf(step.node.edges) == {};
    } else {
      var stored := JoinNode(step.node.(addedIntoTable := true), step.distinct, step.remainOld);
      UnitExact(env);
      InitialIsStep(env, stored);
      JoinNodeExact(env, {}, map[], map[], [[]], stored);
      assert {} + ConstraintsOf(step.node.edges) == ConstraintsOf(step.node.edges);
    }
  }

  lemma LeafJoinTwoNodesExact(env: Env, step: StepOperation)
    requires step.JoinTwoNodes? && StepFits(step, {}) && LeafMeans(env, step)
    ensures StepReadable(step, map[], [])
    ensures Exact(env, {ConstraintOf(step.twoNodes.edge)}, InitialIdPos(step), InitialPosId(step), InitialRows(env, step))
  {
    UnitExact(env);
    InitialIsStep(env, step);
    assert TwoNodeStep(env, step, map[]);
    JoinTwoNodesExact(env, {}, map[], map[], [[]], step);
    assert {} + {ConstraintOf(step.twoNodes.edge)} == {ConstraintOf(step.twoNodes.edge)};
  }

  lemma LeafExact(env: Env, step: StepOperation)
    requires env.CachesSorted() && Starts(step) && StepFits(step, {}) && LeafMeans(env, step)
    ensures StepReadable(step, map[], [])
    ensures Exact(env, StepConstraints(step), InitialIdPos(step), InitialPosId(step), InitialRows(env, step))
  {
    if step.JoinNode? {
      LeafJoinNodeExact(env, step);
    } else {
      LeafJoinTwoNodesExact(env, step);
    }
  }

  lemma StepKeys(env: Env, step: StepOperation, c: Columns)
    requires StepMeans(env, step, c.idPos.Keys)
    ensures NextColumns(step, c).idPos.Keys == c.idPos.Keys + StepVars(step)
  {
  }

  lemma TwoNodesCase(env: Env, constraints: set<Constraint>, c: Columns, rows: seq<Row>, step: StepOperation)
    requires Exact(env, constraints, c.idPos, c.posId, rows) && step.JoinTwoNodes?
    requires StepFits(step, c.idPos.Keys) && StepMeans(env, step, c.idPos.Keys)
    ensures AllStepReadable(step, c.idPos, rows)
    ensures Exact(env, constraints + StepConstraints(step), NextColumns(step, c).idPos, NextColumns(step, c).posId,
                  StepRows(env, step, c.idPos, rows))
  {
    assert TwoNodeStep(env, step, c.idPos);
    JoinTwoNodesExact(env, constraints, c.idPos, c.posId, rows, step);
  }

  lemma StepExact(env: Env, constraints: set<Constraint>, c: Columns, rows: seq<Row>, step: StepOperation)
    requires Exact(env, constraints, c.idPos, c.posId, rows)
    requires StepFits(step, c.idPos.Keys) && StepMeans(env, step, c.idPos.Keys)
    ensures AllStepReadable(step, c.idPos, rows)
    ensures Exact(env, constraints + StepConstraints(step), NextColumns(step, c).idPos, NextColumns(step, c).posId,
                  StepRows(env, step, c.idPos, rows))
  {
    if step.JoinNode? {
      JoinNodeExact(env, constraints, c.idPos, c.posId, rows, step);
    } else if step.JoinTwoNodes? {
      TwoNodesCase(env, constraints, c, rows, step);
    } else {
      EdgeCheckExact(env, constraints, c.idPos, c.posId, rows, step);
    }
  }

  // ---- solutions and empty tables ----

  lemma RowsIffSolvable(env: Env, tree: PlanTree, t: Table)
    requires t.columns.idPos.Keys == tree.Vars() && Exact(env, tree.Constraints(), t.columns.idPos, t.columns.posId, t.rows)
    ensures t.rows != [] <==> Solvable(env, tree)
  {
    var c := t.columns;
    if t.rows != [] {
      assert InTable(env, tree.Constraints(), c.idPos, |c.posId|, t.rows[0]);
      assert IsSolution(env, tree, AssignmentOf(c.idPos, t.rows[0]));
    }
    if Solvable(env, tree) {
      var mu :| IsSolution(env, tree, mu);
      ExactMeansEachSolutionOnce(env, tree.Constraints(), c.idPos, c.posId, t.rows, mu);
    }
  }

  /** All constraints of a well-formed tree are about its variables. */
  lemma RestrictedSatisfies(env: Env, constraints: set<Constraint>, variables: set<nat>, mu: Assignment)
    requires forall c :: c in constraints ==> c.Variables() <= variables
    requires variables <= mu.Keys && Satisfies(env, constraints, mu)
    ensures Satisfies(env, constraints, Restricted(mu, variables))
  {
    forall c | c in constraints ensures Holds(env.g, c, Restricted(mu, variables)) {
      HoldsDependsOnVariables(env.g, c, mu, Restricted(mu, variables));
    }
  }

  lemma SubtreeSolvable(env: Env, tree: PlanTree, part: PlanTree)
    requires part.Constraints() <= tree.Constraints() && part.Vars() <= tree.Vars() && Solvable(env, tree)
    requires forall c :: c in part.Constraints() ==> c.Variables() <= part.Vars()
    ensures Solvable(env, part)
  {
    var mu :| IsSolution(env, tree, mu);
    RestrictedSatisfies(env, part.Constraints(), part.Vars(), mu);
    assert IsSolution(env, part, Restricted(mu, part.Vars()));
  }

  lemma StepConstraintVariables(env: Env, step: StepOperation, known: set<nat>)
    requires StepFits(step, known) && (StepMeans(env, step, known) || (known == {} && LeafMeans(env, step)))
    ensures forall c :: c in StepConstraints(step) ==> c.Variables() <= known + StepVars(step)
  {
    match step
    case JoinNode(feed, _, _) =>
      forall e | e in feed.edges ensures ConstraintOf(e).Variables() <= known + {feed.nodeToJoin} {
        EdgeVariables(e);
      }
    case JoinTwoNodes(feed, _) => TwoNodeVariables(feed, known);
    case EdgeCheck(feed, _) =>
      forall e | e in feed.edges ensures ConstraintOf(e).Variables() <= known {
        CheckVariables(e, known);
      }
  }

  lemma {:induction false} TreeConstraintVariables(env: Env, tree: PlanTree)
    requires TreeFits(tree) && TreeMeans(env, tree)
    ensures forall c :: c in tree.Constraints() ==> c.Variables() <= tree.Vars()
  {
    match tree
    case Leaf(step) => StepConstraintVariables(env, step, {});
    case Unary(step, child) =>
      TreeConstraintVariables(env, child);
      StepConstraintVariables(env, step, child.Vars());
    case Binary(_, left, right) =>
      TreeConstraintVariables(env, left);
      TreeConstraintVariables(env, right);
  }

  lemma {:induction false} LostMeansUnsolvable(env: Env, tree: PlanTree)
    requires TreeFits(tree) && TreeMeans(env, tree) && LosesColumns(env, tree)
    ensures !Solvable(env, tree)
  {
    match tree
    case Unary(_, child) =>
      LostMeansUnsolvable(env, child);
      if Solvable(env, tree) {
        TreeConstraintVariables(env, child);
        SubtreeSolvable(env, tree, child);
      }
    case Binary(_, left, right) =>
      if Solvable(env, tree) {
        TreeConstraintVariables(env, left);
        TreeConstraintVariables(env, right);
        SubtreeSolvable(env, tree, left);
        SubtreeSolvable(env, tree, right);
      }
  }

  lemma HeldRowsIffSolvable(env: Env, tree: PlanTree, t: Table)
    requires TreeFits(tree) && TreeMeans(env, tree) && HoldsSolutions(env, tree, t)
    ensures t.rows != [] <==> Solvable(env, tree)
  {
    if LosesColumns(env, tree) {
      LostMeansUnsolvable(env, tree);
    } else {
      RowsIffSolvable(env, tree, t);
    }
  }

  lemma {:induction false} VarsNonEmpty(tree: PlanTree)
    requires LeavesStart(tree)
    ensures tree.Vars() != {}
  {
    match tree
    case Leaf(step) => assert step.JoinNode? ==> step.node.nodeToJoin in tree.Vars();
                       assert step.JoinTwoNodes? ==> step.twoNodes.nodeToJoin1 in tree.Vars();
    case Unary(_, child) =>
      VarsNonEmpty(child);
      var v :| v in child.Vars();
      assert v in tree.Vars();
    case Binary(_, left, right) =>
      VarsNonEmpty(left);
      var v :| v in left.Vars();
      assert v in tree.Vars();
  }

  // ---- the meaning of an execution ----

  lemma LeafHolds(env: Env, step: StepOperation, t: Table)
    requires env.CachesSorted() && TreeFits(Leaf(step)) && LeafMeans(env, step) && Starts(step) && StartsWith(env, step, t)
    ensures HoldsSolutions(env, Leaf(step), t)
  {
    LeafExact(env, step);
    LeafKeys(step);
    assert !LosesColumns(env, Leaf(step));
    assert t.columns == InitialColumns(step) && t.rows == InitialRows(env, step);
  }

  lemma LeafKeys(step: StepOperation)
    requires Starts(step)
    ensures Leaf(step).Vars() == InitialIdPos(step).Keys && Leaf(step).Constraints() == StepConstraints(step)
  {
  }

  lemma UnaryHolds(env: Env, step: StepOperation, child: PlanTree, before: Table, t: Table)
    requires TreeFits(Unary(step, child)) && TreeMeans(env, Unary(step, child)) && LeavesStart(child)
    requires HoldsSolutions(env, child, before) && ContinuesWith(env, step, before, t) && !(Starts(step) && LosesColumns(env, child))
    ensures HoldsSolutions(env, Unary(step, child), t)
  {
    if LosesColumns(env, child) {
      assert t.rows == [];
    } else {
      VarsNonEmpty(child);
      StepExact(env, child.Constraints(), before.columns, before.rows, step);
      StepKeys(env, step, before.columns);
    }
  }

  lemma BinaryHolds(env: Env, tree: PlanTree, a: Table, b: Table, t: Table)
    requires tree.Binary? && TreeFits(tree) && TreeMeans(env, tree)
    requires HoldsSolutions(env, tree.left, a) && HoldsSolutions(env, tree.right, b) && JoinsTo(a, b, t)
    ensures HoldsSolutions(env, tree, t)
  {
    HeldRowsIffSolvable(env, tree.left, a);
    HeldRowsIffSolvable(env, tree.right, b);
    if !LosesColumns(env, tree) {
      NonEmptyNotLost(env, tree.left, a);
      NonEmptyNotLost(env, tree.right, b);
      TableJoinExact(env, tree.left.Constraints(), a.columns.idPos, a.columns.posId, a.rows,
                     tree.right.Constraints(), b.columns.idPos, b.columns.posId, b.rows,
                     t.columns.idPos, t.columns.posId, t.rows);
    }
  }

  lemma NonEmptyNotLost(env: Env, tree: PlanTree, t: Table)
    requires HoldsSolutions(env, tree, t) && t.rows != []
    ensures !LosesColumns(env, tree)
  {
  }

  /** Whatever a sound plan computes is the table of its solutions. */
  lemma {:induction false} ComputedIsExact(env: Env, tree: PlanTree, t: Table)
    requires env.CachesSorted() && TreeFits(tree) && TreeMeans(env, tree) && LeavesStart(tree)
    requires Computes(env, tree, t) && !ReadsLost(env, tree)
    ensures HoldsSolutions(env, tree, t)
  {
    match tree
    case Leaf(step) => LeafHolds(env, step, t);
    case Unary(step, child) =>
      var before :| Computes(env, child, before) && ContinuesWith(env, step, before, t);
      ComputedIsExact(env, child, before);
      UnaryHolds(env, step, child, before, t);
    case Binary(_, left, right) =>
      var a, b :| Computes(env, left, a) && Computes(env, right, b) && JoinsTo(a, b, t);
      ComputedIsExact(env, left, a);
      ComputedIsExact(env, right, b);
      BinaryHolds(env, tree, a, b, t);
  }

  /** A sound plan gets stuck only where a node is joined on top of a table that lost its columns. */
  lemma {:induction false} StuckMeansLost(env: Env, tree: PlanTree)
    requires env.CachesSorted() && TreeFits(tree) && TreeMeans(env, tree) && LeavesStart(tree) && Stuck(env, tree)
    ensures ReadsLost(env, tree)
  {
    match tree
    case Unary(step, child) =>
      if Stuck(env, child) {
        StuckMeansLost(env, child);
      } else if !ReadsLost(env, child) {
        var before :| Computes(env, child, before) && StepStuck(step, before);
        ComputedIsExact(env, child, before);
        VarsNonEmpty(child);
      }
    case Binary(_, left, right) =>
      if Stuck(env, left) {
        StuckMeansLost(env, left);
      } else {
        StuckMeansLost(env, right);
      }
  }

  lemma {:induction false} LostMayLose(env: Env, tree: PlanTree)
    requires LosesColumns(env, tree)
    ensures MayLoseColumns(tree)
  {
    if tree.Unary? {
      LostMayLose(env, tree.child);
    }
  }

  /** On top of a table without columns a step that has to read one computes nothing. */
  lemma NothingContinues(env: Env, step: StepOperation, known: set<nat>, before: Table, t: Table)
    requires before.columns.idPos == map[] && Starts(step) && StepFits(step, known) && !StepFits(step, {})
    ensures !ContinuesWith(env, step, before, t)
  {
  }

  lemma {:induction false} LostComputesNothing(env: Env, tree: PlanTree, t: Table)
    requires env.CachesSorted() && TreeFits(tree) && TreeMeans(env, tree) && LeavesStart(tree) && ReadsLost(env, tree)
    ensures !Computes(env, tree, t)
  {
    match tree
    case Unary(step, child) =>
      forall before | Computes(env, child, before) ensures !ContinuesWith(env, step, before, t) {
        if ReadsLost(env, child) {
          LostComputesNothing(env, child, before);
        } else {
          ComputedIsExact(env, child, before);
          LostMayLose(env, child);
          NothingContinues(env, step, child.Vars(), before, t);
        }
      }
    case Binary(_, left, right) =>
      if ReadsLost(env, left) {
        forall a ensures !Computes(env, left, a) {
          LostComputesNothing(env, left, a);
        }
      } else {
        forall b ensures !Computes(env, right, b) {
          LostComputesNothing(env, right, b);
        }
      }
  }

  /**
   The result of executing a sound plan: the table of its solutions, each once, exactly if no node is
   joined on top of a table join one of whose inputs has no solutions.
   */
  lemma PlanExecutionMeaning(env: Env, tree: PlanTree, outcome: Outcome, t: Table)
    requires env.CachesSorted() && TreeFits(tree) && TreeMeans(env, tree) && LeavesStart(tree)
    requires Answers(env, tree, outcome, t)
    ensures outcome.Done? <==> !ReadsLost(env, tree)
    ensures outcome.ReadsMissingColumn? <==> ReadsLost(env, tree)
    ensures outcome.Done? ==> HoldsSolutions(env, tree, t)
  {
    if ReadsLost(env, tree) {
      LostComputesNothing(env, tree, t);
    } else if outcome.ReadsMissingColumn? {
      StuckMeansLost(env, tree);
    } else {
      ComputedIsExact(env, tree, t);
    }
  }
}
