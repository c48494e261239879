/**
 Chains that can be seen to return nothing before they are run: the first table is empty, or some step
 has an edge that no stored triple can meet, or a node whose candidate list is empty.
 */
module DeadSteps {
  import opened Rdf
  import opened TableOperator
  import opened Semantics
  import opened StepSpec
  import opened Sequences
  import opened ExactJoins
  import opened PlanChain
  import opened DepthSpec
  import opened OneStepPlans

  /** Whether a triple has the constants of an edge. */
  predicate HasConstants(e: Edge, t: Triple) {
    var m := e.info.joinMethod;
    && (m.GivesS() && e.constant.sConstant ==> t.s == e.info.s)
    && (m.GivesP() && e.constant.pConstant ==> t.p == e.info.p)
    && (m.GivesO() && e.constant.oConstant ==> t.o == e.info.o)
  }

  predicate DeadEdge(g: Store, e: Edge) {
    forall t :: t in g ==> !HasConstants(e, t)
  }

  predicate NoCandidate(env: Env, v: nat) {
    v in env.caches && env.caches[v] == []
  }

  predicate DeadStep(env: Env, step: StepOperation) {
    match step
    case JoinNode(feed, _, _) => feed.edges != [] && (NoCandidate(env, feed.nodeToJoin) || exists e :: e in feed.edges && DeadEdge(env.g, e))
    case JoinTwoNodes(feed, _) => NoCandidate(env, feed.nodeToJoin1) || NoCandidate(env, feed.nodeToJoin2) || DeadEdge(env.g, feed.edge)
    case EdgeCheck(feed, _) => exists e :: e in feed.edges && DeadEdge(env.g, e)
    case JoinTable(_, _) => false
  }

  lemma ListedNotDead(g: Store, e: Edge, idPos: PositionValue, row: Row, x: nat)
    requires e.info.joinMethod.OneNode() && Readable(e, idPos, row)
    ensures x in EdgeList(g, e, idPos, row) ==> !DeadEdge(g, e)
  {
    var m := e.info.joinMethod;
    if x in EdgeList(g, e, idPos, row) {
      assert m.GivesS() && !e.constant.sConstant ==> e.info.s in e.Reads();
      assert m.GivesP() && !e.constant.pConstant ==> e.info.p in e.Reads();
      assert m.GivesO() && !e.constant.oConstant ==> e.info.o in e.Reads();
      var s, p, o := Given(m.GivesS(), e.info.s, e.constant.sConstant, idPos, row), Given(m.GivesP(), e.info.p, e.constant.pConstant, idPos, row),
                     Given(m.GivesO(), e.info.o, e.constant.oConstant, idPos, row);
      LookupMeaning(g, m, s, p, o, x);
      var t :| t in g && LookupFits(m, s, p, o, x, t);
      assert HasConstants(e, t);
    }
  }

  lemma PairedNotDead(g: Store, e: Edge, idPos: PositionValue, row: Row, pair: (nat, nat))
    requires e.info.joinMethod.TwoNode() && Readable(e, idPos, row)
    ensures pair in PairList(g, e, idPos, row) ==> !DeadEdge(g, e)
  {
    var triple := TripleOfPair(e.info.joinMethod, GivenOf(e, idPos, row), pair.0, pair.1);
    PairListMembers(g, e, idPos, row, pair.0, pair.1);
    assert HasConstants(e, triple);
  }

  lemma FirstIn<T>(xs: seq<T>)
    ensures xs != [] ==> xs[0] in xs
  {
  }

  lemma NothingIn<T>(xs: seq<T>)
    requires forall x :: x !in xs
    ensures xs == []
  {
    FirstIn(xs);
  }

  lemma NoCandidates(env: Env, feed: FeedOneNode, idPos: PositionValue, row: Row)
    requires AllReadable(feed.edges, idPos, row)
    requires NoCandidate(env, feed.nodeToJoin) || exists e :: e in feed.edges && DeadEdge(env.g, e)
    ensures Candidates(env, feed.edges, feed.nodeToJoin, idPos, row) == []
  {
    var ids := Candidates(env, feed.edges, feed.nodeToJoin, idPos, row);
    forall x ensures x !in ids {
      if e :| e in feed.edges && DeadEdge(env.g, e) {
        ListedNotDead(env.g, e, idPos, row, x);
      }
    }
    NothingIn(ids);
  }

  lemma NoPairs(env: Env, feed: FeedTwoNode, idPos: PositionValue, row: Row)
    requires feed.edge.info.joinMethod.TwoNode() && Readable(feed.edge, idPos, row)
    requires NoCandidate(env, feed.nodeToJoin1) || NoCandidate(env, feed.nodeToJoin2) || DeadEdge(env.g, feed.edge)
    ensures AllowedPairs(env, feed.nodeToJoin1, feed.nodeToJoin2, PairList(env.g, feed.edge, idPos, row)) == []
  {
    var pairs := AllowedPairs(env, feed.nodeToJoin1, feed.nodeToJoin2, PairList(env.g, feed.edge, idPos, row));
    forall pair ensures pair !in pairs {
      PairedNotDead(env.g, feed.edge, idPos, row, pair);
    }
    NothingIn(pairs);
  }

  /** A dead step makes nothing of any record. */
  lemma DeadStepRow(env: Env, step: StepOperation, idPos: PositionValue, row: Row)
    requires DeadStep(env, step) && StepReadable(step, idPos, row)
    ensures StepRow(env, step, idPos, row) == []
  {
    match step
    case JoinNode(feed, _, _) => NoCandidates(env, feed, idPos, row);
    case JoinTwoNodes(feed, _) => NoPairs(env, feed, idPos, row);
    case EdgeCheck(feed, _) =>
      var e :| e in feed.edges && DeadEdge(env.g, e);
      assert Checkable(e, idPos, row);
      ListedNotDead(env.g, e, idPos, row, Given(true, e.info.GetVarToFilter(), e.constant.FilteredIsConstant(e.info), idPos, row));
  }

  lemma DeadStepRows(env: Env, step: StepOperation, idPos: PositionValue, rows: seq<Row>)
    requires DeadStep(env, step) && AllStepReadable(step, idPos, rows)
    ensures StepRows(env, step, idPos, rows) == []
  {
    forall out ensures out !in StepRows(env, step, idPos, rows) {
      InFlatMap(StepFunction(env, step, idPos), rows, out);
      forall row | row in rows ensures StepRow(env, step, idPos, row) == [] {
        DeadStepRow(env, step, idPos, row);
      }
    }
    NothingIn(StepRows(env, step, idPos, rows));
  }

  lemma {:induction false} DeadRest(env: Env, steps: seq<StepOperation>, layer: nat, rows: seq<Row>, i: nat)
    requires ChainFits(steps) && 0 < layer <= i < |steps| && Shaped(ColumnsAt(steps, layer - 1), rows) && DeadStep(env, steps[i])
    ensures RestRows(env, steps, layer, rows) == []
    decreases i - layer
  {
    var next := LayerRows(env, steps, layer, rows);
    if layer == i {
      assert FitsAt(steps, layer);
      StepKeepsShape(env, steps[layer], ColumnsAt(steps, layer - 1), rows);
      DeadStepRows(env, steps[layer], ColumnsAt(steps, layer - 1).idPos, rows);
      RestRowsEmpty(env, steps, layer + 1);
    } else {
      DeadRest(env, steps, layer + 1, next, i);
    }
  }

  /** What can be told from the candidate lists, the ids in use and the constants of the steps alone. */
  ghost predicate SeenEmpty(env: Env, steps: seq<StepOperation>)
    requires ChainFits(steps)
  {
    StartSize(env, steps[0]) == 0 || exists i :: 0 < i < |steps| && DeadStep(env, steps[i])
  }

  lemma SeenEmptyRows(env: Env, steps: seq<StepOperation>)
    requires ChainFits(steps) && SeenEmpty(env, steps)
    ensures ChainRows(env, steps) == []
  {
    InitialShape(env, steps[0]);
    if StartSize(env, steps[0]) == 0 {
      InitialRowsSize(env, steps[0]);
      RestRowsEmpty(env, steps, 1);
    } else {
      var i :| 0 < i < |steps| && DeadStep(env, steps[i]);
      DeadRest(env, steps, 1, InitialRows(env, steps[0]), i);
    }
  }

  /** A chain that is seen to return nothing keeps to every limit, also to a limit of zero. */
  lemma SeenEmptyKeepsLimit(env: Env, steps: seq<StepOperation>, limit: int, found: seq<Row>)
    requires ChainFits(steps) && SeenEmpty(env, steps) && LimitedTo(env, steps, limit, found)
    ensures found == []
  {
    SeenEmptyRows(env, steps);
    InitialShape(env, steps[0]);
    if |steps| > 1 && limit == 0 {
      FirstBlockPrefix(env, steps, 1, InitialRows(env, steps[0]));
    }
  }
}
