/**
 Depth-first against breadth-first: with a limit, the depth-first search of a chain returns the first
 rows of the table that the breadth-first execution of the same chain returns.
 */
module DepthBreadth {
  import opened TableOperator
  import opened Semantics
  import opened StepSpec
  import opened PlanChain
  import opened DepthSpec
  import opened BreadthFirst

  /** The tree of a chain: each step on top of the one before it. */
  function ChainTree(steps: seq<StepOperation>): PlanTree
    requires |steps| > 0
  {
    if |steps| == 1 then Leaf(steps[0]) else Unary(steps[|steps| - 1], ChainTree(steps[..|steps| - 1]))
  }

  lemma {:induction false} ColumnsOfPrefix(steps: seq<StepOperation>, n: nat, layer: nat)
    requires layer < n <= |steps| && Starts(steps[0])
    ensures ColumnsAt(steps[..n], layer) == ColumnsAt(steps, layer)
  {
    if layer > 0 {
      ColumnsOfPrefix(steps, n, layer - 1);
    }
  }

  lemma ShorterFitsAt(steps: seq<StepOperation>, i: nat)
    requires ChainFits(steps) && 0 < i < |steps| - 1
    ensures FitsAt(steps[..|steps| - 1], i)
  {
    assert FitsAt(steps, i);
    var shorter, columns := steps[..|steps| - 1], ColumnsAt(steps, i - 1);
    ColumnsOfPrefix(steps, |steps| - 1, i - 1);
    FitsBy(shorter, i, steps[i], columns);
  }

  lemma ShorterFits(steps: seq<StepOperation>)
    requires ChainFits(steps) && |steps| > 1
    ensures ChainFits(steps[..|steps| - 1])
  {
    var shorter := steps[..|steps| - 1];
    forall i | 0 < i < |shorter| ensures FitsAt(shorter, i) {
      ShorterFitsAt(steps, i);
    }
  }

  lemma ShorterChainFits(steps: seq<StepOperation>)
    requires ChainFits(steps) && |steps| > 1
    ensures ChainFits(steps[..|steps| - 1])
    ensures ColumnsAt(steps[..|steps| - 1], |steps| - 2) == ColumnsAt(steps, |steps| - 2)
  {
    ShorterFits(steps);
    ColumnsOfPrefix(steps, |steps| - 1, |steps| - 2);
  }

  lemma LastFits(steps: seq<StepOperation>) returns (known: set<nat>)
    requires ChainFits(steps) && |steps| > 1
    ensures known == ColumnsAt(steps, |steps| - 2).idPos.Keys && StepFits(steps[|steps| - 1], known)
  {
    assert FitsAt(steps, |steps| - 1);
    known := ColumnsAt(steps, |steps| - 2).idPos.Keys;
  }

  lemma SameColumns(steps: seq<StepOperation>, shorter: seq<StepOperation>, layer: nat)
    requires |steps| > 1 && Starts(steps[0]) && shorter == steps[..|steps| - 1] && 0 < layer < |steps| - 1
    ensures ColumnsAt(shorter, layer - 1) == ColumnsAt(steps, layer - 1) && ColumnsAt(shorter, layer) == ColumnsAt(steps, layer)
  {
    ColumnsOfPrefix(steps, |steps| - 1, layer - 1);
    ColumnsOfPrefix(steps, |steps| - 1, layer);
  }

  /** Before the last layer, a chain and the chain without its last step do the same. */
  lemma BothLayers(env: Env, steps: seq<StepOperation>, shorter: seq<StepOperation>, layer: nat, rows: seq<Row>, after: nat)
    returns (next: seq<Row>)
    requires ChainFits(steps) && ChainFits(shorter) && |steps| > 1 && shorter == steps[..|steps| - 1] && 0 < layer < |steps| - 1
    requires Shaped(ColumnsAt(steps, layer - 1), rows) && Shaped(ColumnsAt(shorter, layer - 1), rows) && after == layer + 1
    ensures Shaped(ColumnsAt(steps, after - 1), next) && Shaped(ColumnsAt(shorter, after - 1), next)
    ensures RestRows(env, steps, layer, rows) == RestRows(env, steps, after, next)
    ensures RestRows(env, shorter, layer, rows) == RestRows(env, shorter, after, next)
  {
    SameColumns(steps, shorter, layer);
    next := OneLayer(env, steps, layer, rows);
    var next' := OneLayer(env, shorter, layer, rows);
    assert next == next';
  }

  /** The last step works on the rows of the chain without it. */
  lemma {:induction false} LastStepLast(env: Env, steps: seq<StepOperation>, shorter: seq<StepOperation>, layer: nat, rows: seq<Row>)
    returns (found: seq<Row>, before: seq<Row>)
    requires ChainFits(steps) && ChainFits(shorter) && |steps| > 1 && shorter == steps[..|steps| - 1] && 0 < layer < |steps|
    requires Shaped(ColumnsAt(steps, layer - 1), rows) && Shaped(ColumnsAt(shorter, layer - 1), rows)
    ensures found == RestRows(env, steps, layer, rows) && before == RestRows(env, shorter, layer, rows)
    ensures LastOn(env, steps, found, before)
    decreases |steps| - layer
  {
    if layer < |steps| - 1 {
      var after := layer + 1;
      var next := BothLayers(env, steps, shorter, layer, rows, after);
      found, before := LastStepLast(env, steps, shorter, after, next);
    } else {
      found, before := OnlyLastLayer(env, steps, shorter, layer, rows);
    }
  }

  lemma OnlyLastLayer(env: Env, steps: seq<StepOperation>, shorter: seq<StepOperation>, layer: nat, rows: seq<Row>)
    returns (found: seq<Row>, before: seq<Row>)
    requires ChainFits(steps) && ChainFits(shorter) && |steps| > 1 && shorter == steps[..|steps| - 1] && layer == |shorter|
    requires Shaped(ColumnsAt(steps, layer - 1), rows) && Shaped(ColumnsAt(shorter, layer - 1), rows)
    ensures found == RestRows(env, steps, layer, rows) && before == RestRows(env, shorter, layer, rows)
    ensures LastOn(env, steps, found, before)
  {
    found, before := RestRows(env, steps, layer, rows), rows;
    LastLayer(env, steps, rows);
    NothingLeft(env, shorter, rows);
  }

  ghost predicate LastOn(env: Env, steps: seq<StepOperation>, rows: seq<Row>, before: seq<Row>)
    requires |steps| > 1 && Starts(steps[0])
  {
    var last, c := steps[|steps| - 1], ColumnsAt(steps, |steps| - 2);
    AllStepReadable(last, c.idPos, before) && rows == StepRows(env, last, c.idPos, before)
  }

  lemma NothingLeft(env: Env, steps: seq<StepOperation>, rows: seq<Row>)
    requires ChainFits(steps) && Shaped(ColumnsAt(steps, |steps| - 1), rows)
    ensures RestRows(env, steps, |steps|, rows) == rows
  {
  }

  lemma OneLayer(env: Env, steps: seq<StepOperation>, layer: nat, rows: seq<Row>) returns (next: seq<Row>)
    requires ChainFits(steps) && 0 < layer < |steps| && Shaped(ColumnsAt(steps, layer - 1), rows)
    ensures AllStepReadable(steps[layer], ColumnsAt(steps, layer - 1).idPos, rows)
    ensures next == StepRows(env, steps[layer], ColumnsAt(steps, layer - 1).idPos, rows)
    ensures Shaped(ColumnsAt(steps, layer), next)
    ensures RestRows(env, steps, layer, rows) == RestRows(env, steps, layer + 1, next)
  {
    assert FitsAt(steps, layer);
    StepKeepsShape(env, steps[layer], ColumnsAt(steps, layer - 1), rows);
    next := StepRows(env, steps[layer], ColumnsAt(steps, layer - 1).idPos, rows);
  }

  lemma LastLayer(env: Env, steps: seq<StepOperation>, rows: seq<Row>)
    requires ChainFits(steps) && |steps| > 1 && Shaped(ColumnsAt(steps, |steps| - 2), rows)
    ensures LastOn(env, steps, RestRows(env, steps, |steps| - 1, rows), rows)
  {
    assert FitsAt(steps, |steps| - 1);
    StepKeepsShape(env, steps[|steps| - 1], ColumnsAt(steps, |steps| - 2), rows);
  }

  lemma ChainRowsLast(env: Env, steps: seq<StepOperation>, shorter: seq<StepOperation>, before: seq<Row>) returns (rows: seq<Row>)
    requires ChainFits(steps) && ChainFits(shorter) && |steps| > 1 && shorter == steps[..|steps| - 1]
    requires before == ChainRows(env, shorter)
    ensures rows == ChainRows(env, steps) && LastOn(env, steps, rows, before)
  {
    rows := ChainRows(env, steps);
    InitialShape(env, steps[0]);
    ColumnsOfPrefix(steps, |steps| - 1, 0);
    var _, _ := LastStepLast(env, steps, shorter, 1, InitialRows(env, steps[0]));
  }

  lemma StartsHaveColumns(step: StepOperation)
    requires Starts(step)
    ensures InitialIdPos(step).Keys == StepVars(step) && InitialIdPos(step) != map[]
  {
    if step.JoinNode? {
      assert step.node.nodeToJoin in InitialIdPos(step);
    } else {
      assert step.twoNodes.nodeToJoin1 in InitialIdPos(step);
    }
  }

  lemma NextKeys(step: StepOperation, c: Columns)
    ensures NextColumns(step, c).idPos.Keys == c.idPos.Keys + (if step.JoinNode? && !step.node.addedIntoTable then {} else StepVars(step))
  {
  }

  lemma {:induction false} ChainTreeShape(steps: seq<StepOperation>)
    requires |steps| > 0 && Starts(steps[0]) && forall i :: 0 <= i < |steps| ==> !steps[i].JoinTable?
    ensures LeavesStart(ChainTree(steps)) && !MayLoseColumns(ChainTree(steps))
    decreases |steps|
  {
    if |steps| > 1 {
      ChainTreeShape(steps[..|steps| - 1]);
    }
  }

  lemma NoTableJoins(steps: seq<StepOperation>)
    requires ChainFits(steps)
    ensures forall i :: 0 <= i < |steps| ==> !steps[i].JoinTable?
  {
    forall i | 0 < i < |steps| ensures !steps[i].JoinTable? {
      assert FitsAt(steps, i);
    }
  }

  lemma ChainVarsSnoc(steps: seq<StepOperation>)
    requires |steps| > 1 && Starts(steps[0])
    requires ChainTree(steps[..|steps| - 1]).Vars() == ColumnsAt(steps, |steps| - 2).idPos.Keys
    ensures ChainTree(steps).Vars() == ColumnsAt(steps, |steps| - 1).idPos.Keys
  {
    NextKeys(steps[|steps| - 1], ColumnsAt(steps, |steps| - 2));
  }

  lemma {:induction false} ChainVars(steps: seq<StepOperation>)
    requires |steps| > 0 && Starts(steps[0])
    ensures ChainTree(steps).Vars() == ColumnsAt(steps, |steps| - 1).idPos.Keys
    decreases |steps|
  {
    if |steps| == 1 {
      StartsHaveColumns(steps[0]);
    } else {
      ChainVars(steps[..|steps| - 1]);
      ColumnsOfPrefix(steps, |steps| - 1, |steps| - 2);
      ChainVarsSnoc(steps);
    }
  }

  lemma {:induction false} ChainHasColumns(steps: seq<StepOperation>, layer: nat)
    requires layer < |steps| && Starts(steps[0])
    ensures ColumnsAt(steps, layer).idPos != map[]
  {
    if layer == 0 {
      StartsHaveColumns(steps[0]);
    } else {
      ChainHasColumns(steps, layer - 1);
      NextKeys(steps[layer], ColumnsAt(steps, layer - 1));
      var v :| v in ColumnsAt(steps, layer - 1).idPos;
      assert v in ColumnsAt(steps, layer).idPos.Keys;
    }
  }

  /** The tree of a fitting chain is one that breadth-first execution accepts. */
  lemma {:induction false} ChainTreeFits(steps: seq<StepOperation>)
    requires ChainFits(steps)
    ensures TreeFits(ChainTree(steps))
    decreases |steps|
  {
    if |steps| > 1 {
      var shorter, last := steps[..|steps| - 1], steps[|steps| - 1];
      var known := LastFits(steps);
      var child := ChainTree(shorter);
      ShorterChainFits(steps);
      ChainTreeFits(shorter);
      ChainTreeWhole(shorter);
      OneMoreTreeFits(child, last);
      assert ChainTree(steps) == Unary(last, child);
    }
  }

  lemma ChainTreeWhole(steps: seq<StepOperation>)
    requires ChainFits(steps)
    ensures ChainTree(steps).Vars() == ColumnsAt(steps, |steps| - 1).idPos.Keys && !MayLoseColumns(ChainTree(steps))
  {
    ChainVars(steps);
    NoTableJoins(steps);
    ChainTreeShape(steps);
  }

  lemma OneMoreTreeFits(child: PlanTree, step: StepOperation)
    requires TreeFits(child) && StepFits(step, child.Vars()) && !MayLoseColumns(child)
    ensures TreeFits(Unary(step, child))
  {
  }

  lemma ContinuesOnColumns(env: Env, step: StepOperation, before: Table, t: Table)
    requires before.columns.idPos != map[] && ContinuesWith(env, step, before, t)
    ensures AllStepReadable(step, before.columns.idPos, before.rows)
    ensures t == Table(NextColumns(step, before.columns), StepRows(env, step, before.columns.idPos, before.rows))
  {
  }

  lemma LastContinues(env: Env, steps: seq<StepOperation>, rows: seq<Row>, before: Table, t: Table)
    requires |steps| > 1 && Starts(steps[0]) && before.columns == ColumnsAt(steps, |steps| - 2) && before.columns.idPos != map[]
    requires LastOn(env, steps, rows, before.rows) && ContinuesWith(env, steps[|steps| - 1], before, t)
    ensures t == Table(ColumnsAt(steps, |steps| - 1), rows)
  {
    ContinuesOnColumns(env, steps[|steps| - 1], before, t);
  }

  lemma OneMoreComputed(env: Env, steps: seq<StepOperation>, shorter: seq<StepOperation>, before: Table, t: Table)
    requires ChainFits(steps) && ChainFits(shorter) && |steps| > 1 && shorter == steps[..|steps| - 1]
    requires before == Table(ColumnsAt(shorter, |shorter| - 1), ChainRows(env, shorter))
    requires ContinuesWith(env, steps[|steps| - 1], before, t)
    ensures t == Table(ColumnsAt(steps, |steps| - 1), ChainRows(env, steps))
  {
    ColumnsBefore(steps, shorter, before.columns);
    var rows := ChainRowsLast(env, steps, shorter, before.rows);
    LastContinues(env, steps, rows, before, t);
  }

  lemma ColumnsBefore(steps: seq<StepOperation>, shorter: seq<StepOperation>, before: Columns)
    requires |steps| > 1 && Starts(steps[0]) && shorter == steps[..|steps| - 1] && before == ColumnsAt(shorter, |shorter| - 1)
    ensures before == ColumnsAt(steps, |steps| - 2) && before.idPos != map[]
  {
    ChainHasColumns(shorter, |shorter| - 1);
    ColumnsOfPrefix(steps, |steps| - 1, |steps| - 2);
  }

  /** Breadth-first execution of a chain computes the chain's rows, in their order. */
  lemma {:induction false} ChainComputes(env: Env, steps: seq<StepOperation>, t: Table)
    requires ChainFits(steps) && Computes(env, ChainTree(steps), t)
    ensures t == Table(ColumnsAt(steps, |steps| - 1), ChainRows(env, steps))
    decreases |steps|
  {
    if |steps| > 1 {
      var shorter, last := steps[..|steps| - 1], steps[|steps| - 1];
      ShorterChainFits(steps);
      var _ := LastFits(steps);
      assert ChainTree(steps) == Unary(last, ChainTree(shorter));
      var before :| Computes(env, ChainTree(shorter), before) && ContinuesWith(env, last, before, t);
      ChainComputes(env, shorter, before);
      OneMoreComputed(env, steps, shorter, before, t);
    }
  }

  lemma HasColumnsNotStuck(step: StepOperation, before: Table)
    requires before.columns.idPos != map[]
    ensures !StepStuck(step, before)
  {
  }

  lemma ComputedNotStuck(env: Env, shorter: seq<StepOperation>, step: StepOperation, before: Table)
    requires ChainFits(shorter) && Computes(env, ChainTree(shorter), before)
    ensures !StepStuck(step, before)
  {
    var c := ColumnsAt(shorter, |shorter| - 1);
    assert before.columns == c by {
      ChainComputes(env, shorter, before);
    }
    assert c.idPos != map[] by {
      ChainHasColumns(shorter, |shorter| - 1);
    }
    HasColumnsNotStuck(step, before);
  }

  lemma UnaryNotStuck(env: Env, step: StepOperation, child: PlanTree)
    requires !Stuck(env, child) && forall before :: Computes(env, child, before) ==> !StepStuck(step, before)
    ensures !Stuck(env, Unary(step, child))
  {
  }

  lemma {:induction false} ChainNeverStuck(env: Env, steps: seq<StepOperation>)
    requires ChainFits(steps)
    ensures !Stuck(env, ChainTree(steps))
    decreases |steps|
  {
    if |steps| > 1 {
      var shorter, last := steps[..|steps| - 1], steps[|steps| - 1];
      ShorterChainFits(steps);
      ChainNeverStuck(env, shorter);
      forall before | Computes(env, ChainTree(shorter), before) ensures !StepStuck(last, before) {
        ComputedNotStuck(env, shorter, last, before);
      }
      assert ChainTree(steps) == Unary(last, ChainTree(shorter));
      UnaryNotStuck(env, last, ChainTree(shorter));
    }
  }

  /**
   For a chain of at least two steps and a limit of at least one, the rows of the depth-first execution are
   the first rows of the breadth-first result, in order.
   */
  lemma DepthFirstIsPrefix(env: Env, steps: seq<StepOperation>, limit: nat, found: seq<Row>, outcome: Outcome, t: Table)
    requires ChainFits(steps) && |steps| > 1 && limit > 0
    requires LimitedTo(env, steps, limit, found)
    requires Answers(env, ChainTree(steps), outcome, t)
    ensures outcome.Done? && found == FirstOf(t.rows, limit)
  {
    NoTableJoins(steps);
    ChainTreeShape(steps);
    ChainNeverStuck(env, steps);
    ChainComputes(env, steps, t);
  }

  /** For a limit of zero they are first rows too, as many as one record of the first table leads to. */
  lemma ZeroLimitIsPrefix(env: Env, steps: seq<StepOperation>, found: seq<Row>, outcome: Outcome, t: Table)
    requires ChainFits(steps) && |steps| > 1
    requires LimitedTo(env, steps, 0, found)
    requires Answers(env, ChainTree(steps), outcome, t)
    ensures outcome.Done? && found <= t.rows
  {
    NoTableJoins(steps);
    ChainTreeShape(steps);
    ChainNeverStuck(env, steps);
    ChainComputes(env, steps, t);
    InitialShape(env, steps[0]);
    var layer := 1;
    FirstBlockPrefix(env, steps, layer, InitialRows(env, steps[0]));
  }
}
