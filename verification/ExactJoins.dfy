/**
 The steps that bring in two nodes at once, check edges, or join two tables keep tables exact too.
 */
module ExactJoins {
  import opened Rdf
  import opened Sequences
  import opened TableOperator
  import opened Semantics
  import opened StepSpec
  import opened ExactSteps
  import TableJoin
  import HashJoin

  /** The two variables an edge looks up, in the order in which the store returns them. */
  ghost predicate BringsInTwo(feed: FeedTwoNode, known: set<nat>) {
    var e := feed.edge;
    && e.info.joinMethod.TwoNode() && e.Reads() <= known
    && (match e.info.joinMethod
        case S2PO => !e.constant.pConstant && !e.constant.oConstant && e.info.p == feed.nodeToJoin1 && e.info.o == feed.nodeToJoin2
        case P2SO => !e.constant.sConstant && !e.constant.oConstant && e.info.s == feed.nodeToJoin1 && e.info.o == feed.nodeToJoin2
        case O2PS => !e.constant.pConstant && !e.constant.sConstant && e.info.p == feed.nodeToJoin1 && e.info.s == feed.nodeToJoin2)
  }

  function FirstFound(m: JoinMethod, t: Triple): nat
    requires m.TwoNode()
  {
    if m.P2SO? then t.s else t.p
  }

  function SecondFound(m: JoinMethod, t: Triple): nat
    requires m.TwoNode()
  {
    if m.O2PS? then t.s else t.o
  }

  ghost predicate CoveredTwo(env: Env, feed: FeedTwoNode)
    requires feed.edge.info.joinMethod.TwoNode()
  {
    && (feed.nodeToJoin1 in env.caches || forall t :: t in env.g ==> FirstFound(feed.edge.info.joinMethod, t) in env.ScanIds(feed.nodeToJoin1))
    && (feed.nodeToJoin2 in env.caches || forall t :: t in env.g ==> SecondFound(feed.edge.info.joinMethod, t) in env.ScanIds(feed.nodeToJoin2))
  }

  /** The triple a pair stands for. */
  ghost function TripleOfPair(m: JoinMethod, given: nat, a: nat, b: nat): Triple
    requires m.TwoNode()
  {
    match m
    case S2PO => Triple(given, a, b)
    case P2SO => Triple(a, given, b)
    case O2PS => Triple(b, a, given)
  }

  function GivenOf(e: Edge, idPos: PositionValue, row: Row): nat
    requires e.info.joinMethod.TwoNode() && Readable(e, idPos, row)
  {
    assert e.info.joinMethod.GivesS() && !e.constant.sConstant ==> e.info.s in e.Reads();
    assert e.info.joinMethod.GivesP() && !e.constant.pConstant ==> e.info.p in e.Reads();
    assert e.info.joinMethod.GivesO() && !e.constant.oConstant ==> e.info.o in e.Reads();
    match e.info.joinMethod
    case S2PO => Given(true, e.info.s, e.constant.sConstant, idPos, row)
    case P2SO => Given(true, e.info.p, e.constant.pConstant, idPos, row)
    case O2PS => Given(true, e.info.o, e.constant.oConstant, idPos, row)
  }

  lemma PairListMembers(g: Store, e: Edge, idPos: PositionValue, row: Row, a: nat, b: nat)
    requires e.info.joinMethod.TwoNode() && Readable(e, idPos, row)
    ensures (a, b) in PairList(g, e, idPos, row) <==> TripleOfPair(e.info.joinMethod, GivenOf(e, idPos, row), a, b) in g
  {
  }

  lemma PairListDistinct(g: Store, e: Edge, idPos: PositionValue, row: Row)
    requires e.info.joinMethod.TwoNode() && Readable(e, idPos, row)
    ensures NoDuplicates(PairList(g, e, idPos, row))
  {
    var given := GivenOf(e, idPos, row);
    match e.info.joinMethod
    case S2PO => PairsFromDistinct(PreIdsBySub(g, given), map p | p in PreIdsBySub(g, given) :: ObjIdsBySubPre(g, given, p));
    case P2SO => PairsFromDistinct(SubIdsByPre(g, given), map s | s in SubIdsByPre(g, given) :: ObjIdsBySubPre(g, s, given));
    case O2PS => PairsFromDistinct(PreIdsByObj(g, given), map p | p in PreIdsByObj(g, given) :: SubIdsByObjPre(g, given, p));
  }

  lemma {:induction false} AllowedPairsDistinct(env: Env, id1: nat, id2: nat, pairs: seq<(nat, nat)>)
    requires NoDuplicates(pairs)
    ensures NoDuplicates(AllowedPairs(env, id1, id2, pairs))
  {
    if pairs != [] {
      AllowedPairsDistinct(env, id1, id2, pairs[1..]);
      var rest := AllowedPairs(env, id1, id2, pairs[1..]);
      assert forall k :: 0 <= k < |rest| ==> rest[k] in pairs[1..];
    }
  }

  /** Only one triple can fit an edge all of whose positions are known. */
  lemma OnlyTriple(feed: FeedTwoNode, idPos: PositionValue, row: Row, mu: Assignment, t: Triple)
    requires feed.edge.info.joinMethod.TwoNode() && Readable(feed.edge, idPos, row)
    requires BringsInTwo(feed, idPos.Keys)
    requires feed.nodeToJoin1 in mu && feed.nodeToJoin2 in mu
    requires forall v :: v in feed.edge.Reads() ==> v in mu && mu[v] == row[idPos[v]]
    requires t == TripleOfPair(feed.edge.info.joinMethod, GivenOf(feed.edge, idPos, row), mu[feed.nodeToJoin1], mu[feed.nodeToJoin2])
    ensures forall t' :: Fits(ConstraintOf(feed.edge), mu, t') <==> t' == t
  {
    var e := feed.edge;
    assert e.info.joinMethod.GivesS() && !e.constant.sConstant ==> e.info.s in e.Reads();
    assert e.info.joinMethod.GivesP() && !e.constant.pConstant ==> e.info.p in e.Reads();
    assert e.info.joinMethod.GivesO() && !e.constant.oConstant ==> e.info.o in e.Reads();
  }

  /** A pair is found exactly if the assignment with both new values satisfies the edge. */
  lemma PairMeaning(g: Store, feed: FeedTwoNode, idPos: PositionValue, row: Row, mu: Assignment)
    requires feed.edge.info.joinMethod.TwoNode() && Readable(feed.edge, idPos, row)
    requires BringsInTwo(feed, idPos.Keys)
    requires feed.nodeToJoin1 in mu && feed.nodeToJoin2 in mu
    requires forall v :: v in feed.edge.Reads() ==> v in mu && mu[v] == row[idPos[v]]
    ensures (mu[feed.nodeToJoin1], mu[feed.nodeToJoin2]) in PairList(g, feed.edge, idPos, row) <==> Holds(g, ConstraintOf(feed.edge), mu)
  {
    var a, b := mu[feed.nodeToJoin1], mu[feed.nodeToJoin2];
    var t := TripleOfPair(feed.edge.info.joinMethod, GivenOf(feed.edge, idPos, row), a, b);
    PairListMembers(g, feed.edge, idPos, row, a, b);
    OnlyTriple(feed, idPos, row, mu, t);
    assert t in g <==> exists t' :: t' in g && t' == t;
  }

  /** The new values of a found pair are in the domains of their variables. */
  lemma PairInDomains(env: Env, feed: FeedTwoNode, mu: Assignment)
    requires feed.edge.info.joinMethod.TwoNode() && BringsInTwo(feed, feed.edge.Reads()) && CoveredTwo(env, feed)
    requires feed.nodeToJoin1 in mu && feed.nodeToJoin2 in mu && Holds(env.g, ConstraintOf(feed.edge), mu)
    ensures PairAllowed(env, feed.nodeToJoin1, feed.nodeToJoin2, (mu[feed.nodeToJoin1], mu[feed.nodeToJoin2])) <==>
              env.InDomain(feed.nodeToJoin1, mu[feed.nodeToJoin1]) && env.InDomain(feed.nodeToJoin2, mu[feed.nodeToJoin2])
  {
    var t :| t in env.g && Fits(ConstraintOf(feed.edge), mu, t);
    assert FirstFound(feed.edge.info.joinMethod, t) == mu[feed.nodeToJoin1];
    assert SecondFound(feed.edge.info.joinMethod, t) == mu[feed.nodeToJoin2];
  }

  lemma BothAdded(idPos: PositionValue, posId: PositionValue, n1: nat, n2: nat)
    requires MutuallyInverse(idPos, posId, |posId|) && n1 !in idPos && n2 !in idPos && n1 != n2
    ensures MutuallyInverse(AddedIdPos(idPos, posId, n1), AddedPosId(posId, n1), |posId| + 1)
    ensures |AddedPosId(posId, n1)| == |posId| + 1
    ensures MutuallyInverse(AddedIdPos(AddedIdPos(idPos, posId, n1), AddedPosId(posId, n1), n2), AddedPosId(AddedPosId(posId, n1), n2), |posId| + 2)
    ensures |AddedPosId(AddedPosId(posId, n1), n2)| == |posId| + 2
  {
    AddNewNodeInverse(idPos, posId, |posId|, n1);
    DomainSize(AddedPosId(posId, n1), |posId| + 1);
    AddNewNodeInverse(AddedIdPos(idPos, posId, n1), AddedPosId(posId, n1), |posId| + 1, n2);
    DomainSize(AddedPosId(AddedPosId(posId, n1), n2), |posId| + 2);
  }

  lemma TwiceExtendedAssignment(idPos: PositionValue, posId: PositionValue, n1: nat, n2: nat, out: Row)
    requires MutuallyInverse(idPos, posId, |posId|) && n1 !in idPos && n2 !in idPos && n1 != n2 && |out| == |posId| + 2
    ensures var wide := AddedIdPos(AddedIdPos(idPos, posId, n1), AddedPosId(posId, n1), n2);
            && (forall v :: v in wide ==> wide[v] < |out|)
            && AssignmentOf(wide, out) == AssignmentOf(idPos, out[..|posId|])[n1 := out[|posId|]][n2 := out[|posId| + 1]]
  {
    BothAdded(idPos, posId, n1, n2);
    ExtendedAssignment(idPos, posId, n1, out[..|posId| + 1]);
    ExtendedAssignment(AddedIdPos(idPos, posId, n1), AddedPosId(posId, n1), n2, out);
    assert out[..|posId| + 1][..|posId|] == out[..|posId|];
  }

  /** Two new variables satisfy the constraints and the edge exactly if their values are an allowed pair. */
  lemma AllowedPairMeaning(env: Env, constraints: set<Constraint>, feed: FeedTwoNode, idPos: PositionValue, row: Row, a: nat, b: nat)
    requires forall v :: v in idPos ==> idPos[v] < |row|
    requires forall c :: c in constraints ==> c.Variables() <= idPos.Keys
    requires feed.nodeToJoin1 !in idPos && feed.nodeToJoin2 !in idPos && feed.nodeToJoin1 != feed.nodeToJoin2
    requires feed.edge.info.joinMethod.TwoNode() && BringsInTwo(feed, idPos.Keys) && CoveredTwo(env, feed) && Readable(feed.edge, idPos, row)
    ensures Satisfies(env, constraints + {ConstraintOf(feed.edge)}, AssignmentOf(idPos, row)[feed.nodeToJoin1 := a][feed.nodeToJoin2 := b]) <==>
              && Satisfies(env, constraints, AssignmentOf(idPos, row))
              && (a, b) in AllowedPairs(env, feed.nodeToJoin1, feed.nodeToJoin2, PairList(env.g, feed.edge, idPos, row))
  {
    var mu := AssignmentOf(idPos, row);
    var mu1 := mu[feed.nodeToJoin1 := a];
    var mu2 := mu1[feed.nodeToJoin2 := b];
    SatisfiesExtended(env, constraints, mu, feed.nodeToJoin1, a);
    SatisfiesExtended(env, constraints, mu1, feed.nodeToJoin2, b);
    PairMeaning(env.g, feed, idPos, row, mu2);
    if Holds(env.g, ConstraintOf(feed.edge), mu2) {
      PairInDomains(env, feed, mu2);
    }
    OneMoreConstraint(env, constraints, ConstraintOf(feed.edge), mu2);
  }

  lemma OneMoreConstraint(env: Env, constraints: set<Constraint>, c: Constraint, mu: Assignment)
    ensures Satisfies(env, constraints + {c}, mu) <==> Satisfies(env, constraints, mu) && Holds(env.g, c, mu)
  {
  }

  lemma InExtendedByPairs(row: Row, pairs: seq<(nat, nat)>, out: Row)
    ensures out in ExtendedByPairs(row, pairs) <==> |out| == |row| + 2 && out[..|row|] == row && (out[|row|], out[|row| + 1]) in pairs
  {
    if out in ExtendedByPairs(row, pairs) {
      var i :| 0 <= i < |pairs| && row + [pairs[i].0, pairs[i].1] == out;
      assert pairs[i] == (out[|row|], out[|row| + 1]);
    }
    if |out| == |row| + 2 && out[..|row|] == row && (out[|row|], out[|row| + 1]) in pairs {
      var i :| 0 <= i < |pairs| && pairs[i] == (out[|row|], out[|row| + 1]);
      assert ExtendedByPairs(row, pairs)[i] == row + [pairs[i].0, pairs[i].1];
      assert out == row + [pairs[i].0, pairs[i].1];
    }
  }

  lemma ExtendedByPairsNoDuplicates(row: Row, pairs: seq<(nat, nat)>)
    requires NoDuplicates(pairs)
    ensures NoDuplicates(ExtendedByPairs(row, pairs))
  {
    var r := ExtendedByPairs(row, pairs);
    forall i, j | 0 <= i < j < |pairs| ensures r[i] != r[j] {
      assert r[i][|row|] == pairs[i].0 && r[i][|row| + 1] == pairs[i].1;
      assert r[j][|row|] == pairs[j].0 && r[j][|row| + 1] == pairs[j].1;
    }
  }

  /** What a step that brings in two nodes asks of the table it is applied to. */
  ghost predicate TwoNodeStep(env: Env, step: StepOperation, idPos: PositionValue) {
    && step.JoinTwoNodes?
    && step.twoNodes.nodeToJoin1 !in idPos && step.twoNodes.nodeToJoin2 !in idPos && step.twoNodes.nodeToJoin1 != step.twoNodes.nodeToJoin2
    && step.twoNodes.edge.info.joinMethod.TwoNode()
    && BringsInTwo(step.twoNodes, idPos.Keys) && CoveredTwo(env, step.twoNodes)
  }

  lemma TwoWiderRow(env: Env, constraints: set<Constraint>, step: StepOperation, idPos: PositionValue, posId: PositionValue, out: Row)
    requires MutuallyInverse(idPos, posId, |posId|) && forall c :: c in constraints ==> c.Variables() <= idPos.Keys
    requires TwoNodeStep(env, step, idPos) && |out| == |posId| + 2
    ensures forall v :: v in StepIdPos(step, idPos, posId) ==> StepIdPos(step, idPos, posId)[v] < |posId| + 2
    ensures Readable(step.twoNodes.edge, idPos, out[..|posId|])
    ensures InTable(env, constraints + {ConstraintOf(step.twoNodes.edge)}, StepIdPos(step, idPos, posId), |posId| + 2, out) <==>
              && InTable(env, constraints, idPos, |posId|, out[..|posId|])
              && out in JoinTwoNodesRow(env, step.twoNodes, idPos, out[..|posId|])
  {
    var feed, row := step.twoNodes, out[..|posId|];
    TwiceExtendedAssignment(idPos, posId, feed.nodeToJoin1, feed.nodeToJoin2, out);
    AllowedPairMeaning(env, constraints, feed, idPos, row, out[|posId|], out[|posId| + 1]);
    InExtendedByPairs(row, AllowedPairs(env, feed.nodeToJoin1, feed.nodeToJoin2, PairList(env.g, feed.edge, idPos, row)), out);
  }

  lemma TwoNodeVariables(feed: FeedTwoNode, known: set<nat>)
    requires BringsInTwo(feed, known)
    ensures ConstraintOf(feed.edge).Variables() <= known + {feed.nodeToJoin1, feed.nodeToJoin2}
  {
  }

  lemma TwoNodeColumns(env: Env, step: StepOperation, idPos: PositionValue, posId: PositionValue)
    requires TwoNodeStep(env, step, idPos) && MutuallyInverse(idPos, posId, |posId|)
    ensures MutuallyInverse(StepIdPos(step, idPos, posId), StepPosId(step, posId), |posId| + 2)
    ensures |StepPosId(step, posId)| == |posId| + 2
    ensures StepIdPos(step, idPos, posId).Keys == idPos.Keys + {step.twoNodes.nodeToJoin1, step.twoNodes.nodeToJoin2}
  {
    var n1, n2 := step.twoNodes.nodeToJoin1, step.twoNodes.nodeToJoin2;
    TwiceAdded(idPos, posId, n1, n2, AddedIdPos(idPos, posId, n1), AddedPosId(posId, n1), StepIdPos(step, idPos, posId), StepPosId(step, posId));
  }

  lemma TwiceAdded(idPos: PositionValue, posId: PositionValue, n1: nat, n2: nat, idPos1: PositionValue, posId1: PositionValue,
                   idPos2: PositionValue, posId2: PositionValue)
    requires MutuallyInverse(idPos, posId, |posId|) && n1 !in idPos && n2 !in idPos && n1 != n2
    requires idPos1 == AddedIdPos(idPos, posId, n1) && posId1 == AddedPosId(posId, n1)
    requires idPos2 == AddedIdPos(idPos1, posId1, n2) && posId2 == AddedPosId(posId1, n2)
    ensures MutuallyInverse(idPos2, posId2, |posId| + 2) && |posId2| == |posId| + 2
    ensures idPos2.Keys == idPos.Keys + {n1, n2}
  {
    BothAdded(idPos, posId, n1, n2);
  }

  lemma TwoNodeReadable(env: Env, constraints: set<Constraint>, idPos: PositionValue, posId: PositionValue, rows: seq<Row>, step: StepOperation)
    requires Exact(env, constraints, idPos, posId, rows) && TwoNodeStep(env, step, idPos)
    ensures AllStepReadable(step, idPos, rows)
  {
    forall row | row in rows ensures StepReadable(step, idPos, row) {
      assert InTable(env, constraints, idPos, |posId|, row);
    }
  }

  lemma JoinTwoNodesMembers(env: Env, constraints: set<Constraint>, idPos: PositionValue, posId: PositionValue, rows: seq<Row>,
                            step: StepOperation, out: Row)
    requires Exact(env, constraints, idPos, posId, rows) && TwoNodeStep(env, step, idPos) && AllStepReadable(step, idPos, rows)
    requires forall v :: v in StepIdPos(step, idPos, posId) ==> StepIdPos(step, idPos, posId)[v] < |posId| + 2
    ensures out in StepRows(env, step, idPos, rows) <==>
              InTable(env, constraints + {ConstraintOf(step.twoNodes.edge)}, StepIdPos(step, idPos, posId), |posId| + 2, out)
  {
    if out in StepRows(env, step, idPos, rows) {
      InFlatMap(StepFunction(env, step, idPos), rows, out);
      var row :| row in rows && out in StepRow(env, step, idPos, row);
      assert InTable(env, constraints, idPos, |posId|, row);
      TwoNodesOfRow(env, constraints, idPos, posId, step, row, out);
    }
    if InTable(env, constraints + {ConstraintOf(step.twoNodes.edge)}, StepIdPos(step, idPos, posId), |posId| + 2, out) {
      TwoWiderRow(env, constraints, step, idPos, posId, out);
      InStepRows(env, step, idPos, rows, out[..|posId|], out);
    }
  }

  lemma TwoNodesOfRow(env: Env, constraints: set<Constraint>, idPos: PositionValue, posId: PositionValue, step: StepOperation, row: Row, out: Row)
    requires MutuallyInverse(idPos, posId, |posId|) && forall c :: c in constraints ==> c.Variables() <= idPos.Keys
    requires TwoNodeStep(env, step, idPos) && InTable(env, constraints, idPos, |posId|, row)
    requires StepReadable(step, idPos, row) && out in StepRow(env, step, idPos, row)
    requires forall v :: v in StepIdPos(step, idPos, posId) ==> StepIdPos(step, idPos, posId)[v] < |posId| + 2
    ensures InTable(env, constraints + {ConstraintOf(step.twoNodes.edge)}, StepIdPos(step, idPos, posId), |posId| + 2, out)
  {
    var feed := step.twoNodes;
    InExtendedByPairs(row, AllowedPairs(env, feed.nodeToJoin1, feed.nodeToJoin2, PairList(env.g, feed.edge, idPos, row)), out);
    TwoWiderRow(env, constraints, step, idPos, posId, out);
  }

  lemma JoinTwoNodesDistinct(env: Env, constraints: set<Constraint>, idPos: PositionValue, posId: PositionValue, rows: seq<Row>, step: StepOperation)
    requires Exact(env, constraints, idPos, posId, rows) && TwoNodeStep(env, step, idPos) && AllStepReadable(step, idPos, rows)
    ensures NoDuplicates(StepRows(env, step, idPos, rows))
  {
    var feed := step.twoNodes;
    var f := StepFunction(env, step, idPos);
    forall row | row in rows ensures NoDuplicates(f(row)) {
      PairListDistinct(env.g, feed.edge, idPos, row);
      AllowedPairsDistinct(env, feed.nodeToJoin1, feed.nodeToJoin2, PairList(env.g, feed.edge, idPos, row));
      ExtendedByPairsNoDuplicates(row, AllowedPairs(env, feed.nodeToJoin1, feed.nodeToJoin2, PairList(env.g, feed.edge, idPos, row)));
    }
    forall row, row', y | row in rows && row' in rows && y in f(row) && y in f(row') ensures row == row' {
      assert InTable(env, constraints, idPos, |posId|, row) && InTable(env, constraints, idPos, |posId|, row');
      InExtendedByPairs(row, AllowedPairs(env, feed.nodeToJoin1, feed.nodeToJoin2, PairList(env.g, feed.edge, idPos, row)), y);
      InExtendedByPairs(row', AllowedPairs(env, feed.nodeToJoin1, feed.nodeToJoin2, PairList(env.g, feed.edge, idPos, row')), y);
    }
    FlatMapNoDuplicates(f, rows);
  }

  lemma TwoNodeConstraints(env: Env, constraints: set<Constraint>, step: StepOperation, idPos: PositionValue, posId: PositionValue)
    requires TwoNodeStep(env, step, idPos) && MutuallyInverse(idPos, posId, |posId|)
    requires forall c :: c in constraints ==> c.Variables() <= idPos.Keys
    ensures forall c :: c in constraints + {ConstraintOf(step.twoNodes.edge)} ==> c.Variables() <= StepIdPos(step, idPos, posId).Keys
  {
    TwoNodeColumns(env, step, idPos, posId);
    TwoNodeVariables(step.twoNodes, idPos.Keys);
  }

  lemma ExactFrom(env: Env, constraints: set<Constraint>, idPos: PositionValue, posId: PositionValue, width: nat, rows: seq<Row>)
    requires MutuallyInverse(idPos, posId, width) && |posId| == width && NoDuplicates(rows)
    requires forall c :: c in constraints ==> c.Variables() <= idPos.Keys
    requires forall row :: row in rows <==> InTable(env, constraints, idPos, width, row)
    ensures Exact(env, constraints, idPos, posId, rows)
  {
  }

  /** Bringing in two nodes over one edge keeps the table exact. */
  lemma JoinTwoNodesExact(env: Env, constraints: set<Constraint>, idPos: PositionValue, posId: PositionValue, rows: seq<Row>, step: StepOperation)
    requires Exact(env, constraints, idPos, posId, rows) && TwoNodeStep(env, step, idPos)
    ensures AllStepReadable(step, idPos, rows)
    ensures Exact(env, constraints + {ConstraintOf(step.twoNodes.edge)}, StepIdPos(step, idPos, posId), StepPosId(step, posId),
                  StepRows(env, step, idPos, rows))
  {
    var idPos', posId' := StepIdPos(step, idPos, posId), StepPosId(step, posId);
    var out := constraints + {ConstraintOf(step.twoNodes.edge)};
    TwoNodeReadable(env, constraints, idPos, posId, rows, step);
    TwoNodeColumns(env, step, idPos, posId);
    TwoNodeConstraints(env, constraints, step, idPos, posId);
    JoinTwoNodesDistinct(env, constraints, idPos, posId, rows, step);
    forall row ensures row in StepRows(env, step, idPos, rows) <==> InTable(env, out, idPos', |posId| + 2, row) {
      JoinTwoNodesMembers(env, constraints, idPos, posId, rows, step, row);
    }
    ExactFrom(env, out, idPos', posId', |posId| + 2, StepRows(env, step, idPos, rows));
  }

  // ---- edge checks ----

  /** The edges of a check look only at columns of the table. */
  ghost predicate ChecksKnown(edges: seq<Edge>, known: set<nat>) {
    forall e :: e in edges ==>
      && e.info.joinMethod.OneNode() && e.Reads() <= known
      && (e.constant.FilteredIsConstant(e.info) || e.info.GetVarToFilter() in known)
  }

  lemma PassesIffHolds(g: Store, e: Edge, idPos: PositionValue, row: Row)
    requires forall v :: v in idPos ==> idPos[v] < |row|
    requires Checkable(e, idPos, row)
    ensures PassesEdge(g, e, idPos, row) <==> Holds(g, ConstraintOf(e), AssignmentOf(idPos, row))
  {
    EdgeListMeaning(g, e, idPos, row, AssignmentOf(idPos, row),
                    Given(true, e.info.GetVarToFilter(), e.constant.FilteredIsConstant(e.info), idPos, row));
  }

  lemma EdgeCheckMeaning(env: Env, constraints: set<Constraint>, edges: seq<Edge>, idPos: PositionValue, row: Row)
    requires forall v :: v in idPos ==> idPos[v] < |row|
    requires forall e :: e in edges ==> Checkable(e, idPos, row)
    ensures row in EdgeCheckRow(env, edges, idPos, row) && Satisfies(env, constraints, AssignmentOf(idPos, row)) <==>
              Satisfies(env, constraints + ConstraintsOf(edges), AssignmentOf(idPos, row))
  {
    var mu := AssignmentOf(idPos, row);
    forall e | e in edges ensures PassesEdge(env.g, e, idPos, row) <==> Holds(env.g, ConstraintOf(e), mu) {
      PassesIffHolds(env.g, e, idPos, row);
    }
    if Satisfies(env, constraints + ConstraintsOf(edges), mu) {
      forall e | e in edges ensures PassesEdge(env.g, e, idPos, row) {
        assert ConstraintOf(e) in ConstraintsOf(edges);
      }
    }
  }

  lemma {:induction false} EdgeCheckDistinct(env: Env, step: StepOperation, idPos: PositionValue, rows: seq<Row>)
    requires step.EdgeCheck? && AllStepReadable(step, idPos, rows) && NoDuplicates(rows)
    ensures NoDuplicates(StepRows(env, step, idPos, rows))
  {
    FlatMapNoDuplicates(StepFunction(env, step, idPos), rows);
  }

  lemma EdgeCheckMembers(env: Env, constraints: set<Constraint>, idPos: PositionValue, posId: PositionValue, rows: seq<Row>,
                         step: StepOperation, out: Row)
    requires Exact(env, constraints, idPos, posId, rows)
    requires step.EdgeCheck? && ChecksKnown(step.filter.edges, idPos.Keys) && AllStepReadable(step, idPos, rows)
    ensures out in StepRows(env, step, idPos, rows) <==> InTable(env, constraints + ConstraintsOf(step.filter.edges), idPos, |posId|, out)
  {
    var edges := step.filter.edges;
    InFlatMap(StepFunction(env, step, idPos), rows, out);
    if out in StepRows(env, step, idPos, rows) {
      var row :| row in rows && out in StepRow(env, step, idPos, row);
      assert out == row && InTable(env, constraints, idPos, |posId|, row);
      EdgeCheckMeaning(env, constraints, edges, idPos, out);
    }
    if InTable(env, constraints + ConstraintsOf(edges), idPos, |posId|, out) {
      assert InTable(env, constraints, idPos, |posId|, out);
      EdgeCheckMeaning(env, constraints, edges, idPos, out);
      assert out in StepRow(env, step, idPos, out);
    }
  }

  lemma CheckReadable(edges: seq<Edge>, idPos: PositionValue, row: Row)
    requires ChecksKnown(edges, idPos.Keys) && forall v :: v in idPos ==> idPos[v] < |row|
    ensures forall e :: e in edges ==> Checkable(e, idPos, row)
  {
  }

  lemma EdgeCheckReadable(env: Env, constraints: set<Constraint>, idPos: PositionValue, posId: PositionValue, rows: seq<Row>, step: StepOperation)
    requires Exact(env, constraints, idPos, posId, rows)
    requires step.EdgeCheck? && ChecksKnown(step.filter.edges, idPos.Keys)
    ensures AllStepReadable(step, idPos, rows)
  {
    forall row | row in rows ensures StepReadable(step, idPos, row) {
      assert InTable(env, constraints, idPos, |posId|, row);
      CheckReadable(step.filter.edges, idPos, row);
    }
  }

  /** Checking edges over the table's own columns keeps it exact and leaves the columns alone. */
  lemma EdgeCheckExact(env: Env, constraints: set<Constraint>, idPos: PositionValue, posId: PositionValue, rows: seq<Row>, step: StepOperation)
    requires Exact(env, constraints, idPos, posId, rows)
    requires step.EdgeCheck? && ChecksKnown(step.filter.edges, idPos.Keys)
    ensures AllStepReadable(step, idPos, rows)
    ensures Exact(env, constraints + ConstraintsOf(step.filter.edges), idPos, posId, StepRows(env, step, idPos, rows))
  {
    EdgeCheckReadable(env, constraints, idPos, posId, rows, step);
    forall out ensures out in StepRows(env, step, idPos, rows) <==>
                       InTable(env, constraints + ConstraintsOf(step.filter.edges), idPos, |posId|, out)
    {
      EdgeCheckMembers(env, constraints, idPos, posId, rows, step, out);
    }
    forall e | e in step.filter.edges ensures ConstraintOf(e).Variables() <= idPos.Keys {
      CheckVariables(e, idPos.Keys);
    }
    EdgeCheckDistinct(env, step, idPos, rows);
  }

  lemma CheckVariables(e: Edge, known: set<nat>)
    requires ChecksKnown([e], known)
    ensures ConstraintOf(e).Variables() <= known
  {
    assert e in [e];
  }

  // ---- table joins ----

  /** A list without duplicates counts each of its elements once. */
  lemma {:induction false} CountOfDistinct<T>(xs: seq<T>, x: T)
    requires NoDuplicates(xs)
    ensures multiset(xs)[x] == if x in xs then 1 else 0
  {
    if xs != [] {
      assert xs == [xs[0]] + xs[1..];
      CountOfDistinct(xs[1..], x);
      if x == xs[0] {
        assert forall k :: 0 <= k < |xs[1..]| ==> xs[1..][k] != x;
      }
    }
  }

  lemma {:induction false} DistinctOfCounts<T>(xs: seq<T>)
    requires forall x :: multiset(xs)[x] <= 1
    ensures NoDuplicates(xs)
  {
    if xs != [] {
      assert xs == [xs[0]] + xs[1..];
      forall x ensures multiset(xs[1..])[x] <= 1 {
        assert multiset(xs)[x] <= 1;
        TableJoin.MultisetCons(xs[0], xs[1..], x);
      }
      DistinctOfCounts(xs[1..]);
      TableJoin.MultisetCons(xs[0], xs[1..], xs[0]);
      assert xs[0] !in xs[1..];
    }
  }

  function Restricted(mu: Assignment, variables: set<nat>): Assignment {
    map v | v in mu && v in variables :: mu[v]
  }

  lemma ProjectionValue(idPos: PositionValue, tableIdPos: PositionValue, tablePosId: PositionValue, r: Row, v: nat)
    requires MutuallyInverse(tableIdPos, tablePosId, |tablePosId|) && v in tableIdPos
    requires HashJoin.Embeds(tablePosId, idPos, |r|)
    ensures v in idPos && idPos[v] < |r|
    ensures TableJoin.Projection(idPos, r, tablePosId, |tablePosId|)[tableIdPos[v]] == r[idPos[v]]
  {
    assert tablePosId[tableIdPos[v]] == v;
  }

  /** What a projection means: the assignment restricted to the table's variables. */
  lemma ProjectionMeaning(idPos: PositionValue, tableIdPos: PositionValue, tablePosId: PositionValue, r: Row)
    requires forall v :: v in idPos ==> idPos[v] < |r|
    requires MutuallyInverse(tableIdPos, tablePosId, |tablePosId|)
    requires tableIdPos.Keys <= idPos.Keys && HashJoin.Embeds(tablePosId, idPos, |r|)
    ensures AssignmentOf(tableIdPos, TableJoin.Projection(idPos, r, tablePosId, |tablePosId|))
         == Restricted(AssignmentOf(idPos, r), tableIdPos.Keys)
  {
    var p := TableJoin.Projection(idPos, r, tablePosId, |tablePosId|);
    var left, right := AssignmentOf(tableIdPos, p), Restricted(AssignmentOf(idPos, r), tableIdPos.Keys);
    forall v | v in tableIdPos ensures left[v] == right[v] {
      ProjectionValue(idPos, tableIdPos, tablePosId, r, v);
    }
  }

  /** Constraints over some of the variables only see those variables' values. */
  lemma SatisfiesUnion(env: Env, a: set<Constraint>, aVariables: set<nat>, b: set<Constraint>, bVariables: set<nat>, mu: Assignment)
    requires mu.Keys == aVariables + bVariables
    requires (forall c :: c in a ==> c.Variables() <= aVariables) && (forall c :: c in b ==> c.Variables() <= bVariables)
    ensures Satisfies(env, a + b, mu) <==> Satisfies(env, a, Restricted(mu, aVariables)) && Satisfies(env, b, Restricted(mu, bVariables))
  {
    forall c | c in a ensures Holds(env.g, c, mu) <==> Holds(env.g, c, Restricted(mu, aVariables)) {
      HoldsDependsOnVariables(env.g, c, mu, Restricted(mu, aVariables));
    }
    forall c | c in b ensures Holds(env.g, c, mu) <==> Holds(env.g, c, Restricted(mu, bVariables)) {
      HoldsDependsOnVariables(env.g, c, mu, Restricted(mu, bVariables));
    }
    if Satisfies(env, a, Restricted(mu, aVariables)) && Satisfies(env, b, Restricted(mu, bVariables)) {
      forall v | v in mu ensures env.InDomain(v, mu[v]) {
        assert v in Restricted(mu, aVariables) || v in Restricted(mu, bVariables);
      }
    }
    if Satisfies(env, a + b, mu) {
      assert forall v :: v in Restricted(mu, aVariables) ==> v in mu;
      assert forall v :: v in Restricted(mu, bVariables) ==> v in mu;
    }
  }

  /** Two exact tables, the columns of their join, and which of its rows belong to it. */
  ghost predicate JoinInputs(env: Env, a: set<Constraint>, aIdPos: PositionValue, aPosId: PositionValue, aRows: seq<Row>,
                             b: set<Constraint>, bIdPos: PositionValue, bPosId: PositionValue, bRows: seq<Row>,
                             idPos: PositionValue, posId: PositionValue)
  {
    && Exact(env, a, aIdPos, aPosId, aRows) && Exact(env, b, bIdPos, bPosId, bRows)
    && MutuallyInverse(idPos, posId, |posId|) && idPos.Keys == aIdPos.Keys + bIdPos.Keys
    && HashJoin.Embeds(aPosId, idPos, |posId|) && HashJoin.Embeds(bPosId, idPos, |posId|)
  }

  lemma ProjectionInTable(env: Env, constraints: set<Constraint>, idPos: PositionValue, posId: PositionValue,
                          tableIdPos: PositionValue, tablePosId: PositionValue, tableRows: seq<Row>, r: Row)
    requires Exact(env, constraints, tableIdPos, tablePosId, tableRows)
    requires MutuallyInverse(idPos, posId, |r|) && tableIdPos.Keys <= idPos.Keys && HashJoin.Embeds(tablePosId, idPos, |r|)
    ensures multiset(tableRows)[TableJoin.Projection(idPos, r, tablePosId, |tablePosId|)]
         == if Satisfies(env, constraints, Restricted(AssignmentOf(idPos, r), tableIdPos.Keys)) then 1 else 0
  {
    var p := TableJoin.Projection(idPos, r, tablePosId, |tablePosId|);
    ProjectionMeaning(idPos, tableIdPos, tablePosId, r);
    CountOfDistinct(tableRows, p);
    assert p in tableRows <==> InTable(env, constraints, tableIdPos, |tablePosId|, p);
  }

  lemma IndicatorProduct(x: nat, y: nat, p: bool, q: bool)
    requires x == (if p then 1 else 0) && y == (if q then 1 else 0)
    ensures x * y == if p && q then 1 else 0
  {
  }

  lemma ProductOfIndicators(aRows: seq<Row>, aPosId: PositionValue, bRows: seq<Row>, bPosId: PositionValue,
                            rows: seq<Row>, idPos: PositionValue, r: Row, p: bool, q: bool)
    requires HashJoin.Embeds(aPosId, idPos, |r|) && HashJoin.Embeds(bPosId, idPos, |r|)
    requires HashJoin.CountsMultiply(aRows, aPosId, bRows, bPosId, rows, idPos, r)
    requires multiset(aRows)[TableJoin.Projection(idPos, r, aPosId, |aPosId|)] == if p then 1 else 0
    requires multiset(bRows)[TableJoin.Projection(idPos, r, bPosId, |bPosId|)] == if q then 1 else 0
    ensures multiset(rows)[r] == if p && q then 1 else 0
  {
    IndicatorProduct(multiset(aRows)[TableJoin.Projection(idPos, r, aPosId, |aPosId|)],
                     multiset(bRows)[TableJoin.Projection(idPos, r, bPosId, |bPosId|)], p, q);
  }

  lemma CountOfUnion(env: Env, a: set<Constraint>, aVariables: set<nat>, b: set<Constraint>, bVariables: set<nat>, mu: Assignment, count: nat)
    requires mu.Keys == aVariables + bVariables
    requires (forall c :: c in a ==> c.Variables() <= aVariables) && (forall c :: c in b ==> c.Variables() <= bVariables)
    requires count == if Satisfies(env, a, Restricted(mu, aVariables)) && Satisfies(env, b, Restricted(mu, bVariables)) then 1 else 0
    ensures count == if Satisfies(env, a + b, mu) then 1 else 0
  {
    SatisfiesUnion(env, a, aVariables, b, bVariables, mu);
  }

  lemma JoinedCount(env: Env, a: set<Constraint>, aIdPos: PositionValue, aPosId: PositionValue, aRows: seq<Row>,
                    b: set<Constraint>, bIdPos: PositionValue, bPosId: PositionValue, bRows: seq<Row>,
                    idPos: PositionValue, posId: PositionValue, rows: seq<Row>, r: Row)
    requires JoinInputs(env, a, aIdPos, aPosId, aRows, b, bIdPos, bPosId, bRows, idPos, posId) && |r| == |posId|
    requires HashJoin.CountsMultiply(aRows, aPosId, bRows, bPosId, rows, idPos, r)
    ensures var mu := AssignmentOf(idPos, r);
            multiset(rows)[r] == if Satisfies(env, a, Restricted(mu, aIdPos.Keys)) && Satisfies(env, b, Restricted(mu, bIdPos.Keys)) then 1 else 0
  {
    var mu := AssignmentOf(idPos, r);
    ProjectionInTable(env, a, idPos, posId, aIdPos, aPosId, aRows, r);
    ProjectionInTable(env, b, idPos, posId, bIdPos, bPosId, bRows, r);
    ProductOfIndicators(aRows, aPosId, bRows, bPosId, rows, idPos, r,
                        Satisfies(env, a, Restricted(mu, aIdPos.Keys)), Satisfies(env, b, Restricted(mu, bIdPos.Keys)));
  }

  lemma JoinedRow(env: Env, a: set<Constraint>, aIdPos: PositionValue, aPosId: PositionValue, aRows: seq<Row>,
                  b: set<Constraint>, bIdPos: PositionValue, bPosId: PositionValue, bRows: seq<Row>,
                  idPos: PositionValue, posId: PositionValue, rows: seq<Row>, r: Row)
    requires JoinInputs(env, a, aIdPos, aPosId, aRows, b, bIdPos, bPosId, bRows, idPos, posId) && |r| == |posId|
    requires HashJoin.CountsMultiply(aRows, aPosId, bRows, bPosId, rows, idPos, r)
    ensures multiset(rows)[r] == if Satisfies(env, a + b, AssignmentOf(idPos, r)) then 1 else 0
  {
    JoinedCount(env, a, aIdPos, aPosId, aRows, b, bIdPos, bPosId, bRows, idPos, posId, rows, r);
    CountOfUnion(env, a, aIdPos.Keys, b, bIdPos.Keys, AssignmentOf(idPos, r), multiset(rows)[r]);
  }

  /** Joining two exact tables on all their common variables gives the exact table of both sets of constraints. */
  lemma TableJoinExact(env: Env, a: set<Constraint>, aIdPos: PositionValue, aPosId: PositionValue, aRows: seq<Row>,
                       b: set<Constraint>, bIdPos: PositionValue, bPosId: PositionValue, bRows: seq<Row>,
                       idPos: PositionValue, posId: PositionValue, rows: seq<Row>)
    requires JoinInputs(env, a, aIdPos, aPosId, aRows, b, bIdPos, bPosId, bRows, idPos, posId)
    requires HashJoin.IsBagJoin(aRows, aPosId, bRows, bPosId, rows, idPos, |posId|)
    ensures Exact(env, a + b, idPos, posId, rows)
  {
    forall r: Row | |r| == |posId| ensures multiset(rows)[r] == if Satisfies(env, a + b, AssignmentOf(idPos, r)) then 1 else 0 {
      assert HashJoin.CountsMultiply(aRows, aPosId, bRows, bPosId, rows, idPos, r);
      JoinedRow(env, a, aIdPos, aPosId, aRows, b, bIdPos, bPosId, bRows, idPos, posId, rows, r);
    }
    forall r ensures multiset(rows)[r] <= 1 && (r in rows <==> InTable(env, a + b, idPos, |posId|, r)) {
      assert r in rows <==> multiset(rows)[r] > 0;
    }
    DistinctOfCounts(rows);
  }
}
