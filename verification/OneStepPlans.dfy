/**
 Plans of a single step ignore the limit. How many rows they return can be told before they are run, from
 the candidate caches and the store, and with it whether they keep to the limit.
 */
module OneStepPlans {
  import opened Rdf
  import opened TableOperator
  import opened Semantics
  import opened StepSpec
  import opened JoinCounts
  import opened ExactJoins
  import opened PlanChain
  import opened DepthSpec
  import opened BreadthFirst
  import opened DepthBreadth

  /** A stored triple has the edge's constants, and the id where the edge looks one up. */
  ghost predicate ConstantsMet(g: Store, e: Edge, x: nat) {
    exists t :: t in g && LookupFits(e.info.joinMethod, e.info.s, e.info.p, e.info.o, x, t)
  }

  /** The ids that meet a first node's edges to constants and are among its candidates. */
  ghost function IdsMeeting(env: Env, edges: seq<Edge>, id: nat): set<nat> {
    set x | x in Mentioned(env.g) && (forall e :: e in edges ==> ConstantsMet(env.g, e, x)) && (id in env.caches ==> x in env.caches[id])
  }

  /** The stored triples with the edge's constant whose other two ids the candidates allow. */
  function TriplesMeeting(env: Env, feed: FeedTwoNode): set<Triple>
    requires feed.edge.info.joinMethod.TwoNode()
  {
    var m, info := feed.edge.info.joinMethod, feed.edge.info;
    set t | t in env.g && (m.GivesS() ==> t.s == info.s) && (m.GivesP() ==> t.p == info.p) && (m.GivesO() ==> t.o == info.o)
            && PairAllowed(env, feed.nodeToJoin1, feed.nodeToJoin2, (FirstFound(m, t), SecondFound(m, t)))
  }

  /** How many rows a first step returns, in terms of the candidates and the store. */
  ghost function StartSize(env: Env, step: StepOperation): nat
    requires Starts(step) && StepFits(step, {})
  {
    match step
    case JoinNode(feed, _, _) =>
      if feed.edges != [] then |IdsMeeting(env, feed.edges, feed.nodeToJoin)|
      else if feed.nodeToJoin in env.caches then |env.caches[feed.nodeToJoin]|
      else |env.ScanIds(feed.nodeToJoin)|
    case JoinTwoNodes(feed, _) => |TriplesMeeting(env, feed)|
  }

  lemma ConstantEdgeList(g: Store, e: Edge, x: nat)
    requires e.info.joinMethod.OneNode() && e.Reads() == {}
    ensures Readable(e, map[], [])
    ensures x in EdgeList(g, e, map[], []) <==> ConstantsMet(g, e, x)
    ensures ConstantsMet(g, e, x) ==> x in Mentioned(g)
  {
    var m := e.info.joinMethod;
    assert m.GivesS() && !e.constant.sConstant ==> e.info.s in e.Reads();
    assert m.GivesP() && !e.constant.pConstant ==> e.info.p in e.Reads();
    assert m.GivesO() && !e.constant.oConstant ==> e.info.o in e.Reads();
    var s := Given(m.GivesS(), e.info.s, e.constant.sConstant, map[], []);
    var p := Given(m.GivesP(), e.info.p, e.constant.pConstant, map[], []);
    var o := Given(m.GivesO(), e.info.o, e.constant.oConstant, map[], []);
    LookupMeaning(g, m, s, p, o, x);
    assert forall t :: LookupFits(m, s, p, o, x, t) <==> LookupFits(m, e.info.s, e.info.p, e.info.o, x, t);
  }

  lemma EdgesReadNothing(edges: seq<Edge>)
    requires ReadsOnly(edges, {})
    ensures AllReadable(edges, map[], []) && forall e :: e in edges ==> e.Reads() == {}
  {
  }

  lemma CandidatesSize(env: Env, edges: seq<Edge>, id: nat)
    requires ReadsOnly(edges, {}) && edges != []
    ensures AllReadable(edges, map[], []) && |Candidates(env, edges, id, map[], [])| == |IdsMeeting(env, edges, id)|
  {
    EdgesReadNothing(edges);
    var ids := Candidates(env, edges, id, map[], []);
    forall x ensures x in ids <==> x in IdsMeeting(env, edges, id) {
      InCandidates(env, edges, id, map[], [], x);
      forall e | e in edges
        ensures x in EdgeList(env.g, e, map[], []) <==> ConstantsMet(env.g, e, x)
        ensures ConstantsMet(env.g, e, x) ==> x in Mentioned(env.g)
      {
        ConstantEdgeList(env.g, e, x);
      }
      assert edges[0] in edges;
    }
    InCandidates(env, edges, id, map[], [], 0);
    IncreasingSize(ids, IdsMeeting(env, edges, id));
  }

  /** Different pairs stand for different triples. */
  lemma {:induction false} PairsCountTriples(m: JoinMethod, given: nat, pairs: seq<(nat, nat)>, triples: set<Triple>)
    requires m.TwoNode() && NoDuplicates(pairs)
    requires forall t :: t in triples <==> exists pair :: pair in pairs && t == TripleOfPair(m, given, pair.0, pair.1)
    ensures |triples| == |pairs|
    decreases |pairs|
  {
    if pairs == [] {
      assert triples == {};
    } else {
      var init, last := pairs[..|pairs| - 1], pairs[|pairs| - 1];
      var t := TripleOfPair(m, given, last.0, last.1);
      assert pairs == init + [last] && last !in init;
      assert last in pairs && t in triples;
      forall u ensures u in triples - {t} <==> exists pair :: pair in init && u == TripleOfPair(m, given, pair.0, pair.1) {
        assert forall pair :: pair in pairs <==> pair in init || pair == last;
      }
      PairsCountTriples(m, given, init, triples - {t});
    }
  }

  /** The one position a first pair step is given is a constant. */
  function ConstantGiven(e: Edge): nat
    requires e.info.joinMethod.TwoNode()
  {
    if e.info.joinMethod.S2PO? then e.info.s else if e.info.joinMethod.P2SO? then e.info.p else e.info.o
  }

  lemma GivenConstant(e: Edge)
    requires e.info.joinMethod.TwoNode() && e.Reads() == {}
    ensures Readable(e, map[], []) && GivenOf(e, map[], []) == ConstantGiven(e)
  {
    assert e.info.joinMethod.GivesS() && !e.constant.sConstant ==> e.info.s in e.Reads();
    assert e.info.joinMethod.GivesP() && !e.constant.pConstant ==> e.info.p in e.Reads();
    assert e.info.joinMethod.GivesO() && !e.constant.oConstant ==> e.info.o in e.Reads();
  }

  lemma PairsAndTriples(env: Env, feed: FeedTwoNode, pairs: seq<(nat, nat)>, t: Triple)
    requires feed.edge.info.joinMethod.TwoNode()
    requires forall a: nat, b: nat :: (a, b) in pairs <==>
               && TripleOfPair(feed.edge.info.joinMethod, ConstantGiven(feed.edge), a, b) in env.g
               && PairAllowed(env, feed.nodeToJoin1, feed.nodeToJoin2, (a, b))
    ensures t in TriplesMeeting(env, feed) <==>
              exists pair :: pair in pairs && t == TripleOfPair(feed.edge.info.joinMethod, ConstantGiven(feed.edge), pair.0, pair.1)
  {
    var m, given := feed.edge.info.joinMethod, ConstantGiven(feed.edge);
    var pair := (FirstFound(m, t), SecondFound(m, t));
    if t in TriplesMeeting(env, feed) {
      assert t == TripleOfPair(m, given, pair.0, pair.1);
      assert pair in pairs;
    }
  }

  lemma PairRowsSize(env: Env, feed: FeedTwoNode)
    requires feed.edge.info.joinMethod.TwoNode() && feed.edge.Reads() == {}
    ensures Readable(feed.edge, map[], []) && |JoinTwoNodesRow(env, feed, map[], [])| == |TriplesMeeting(env, feed)|
  {
    var e := feed.edge;
    GivenConstant(e);
    var all := PairList(env.g, e, map[], []);
    var pairs := AllowedPairs(env, feed.nodeToJoin1, feed.nodeToJoin2, all);
    PairListDistinct(env.g, e, map[], []);
    AllowedPairsDistinct(env, feed.nodeToJoin1, feed.nodeToJoin2, all);
    forall a: nat, b: nat
      ensures (a, b) in pairs <==> TripleOfPair(e.info.joinMethod, ConstantGiven(e), a, b) in env.g
                                   && PairAllowed(env, feed.nodeToJoin1, feed.nodeToJoin2, (a, b))
    {
      PairListMembers(env.g, e, map[], [], a, b);
    }
    forall t ensures t in TriplesMeeting(env, feed) <==> exists pair :: pair in pairs && t == TripleOfPair(e.info.joinMethod, ConstantGiven(e), pair.0, pair.1) {
      PairsAndTriples(env, feed, pairs, t);
    }
    PairsCountTriples(e.info.joinMethod, ConstantGiven(e), pairs, TriplesMeeting(env, feed));
  }

  /** The first table has as many rows as the candidates and the store say. */
  lemma InitialRowsSize(env: Env, step: StepOperation)
    requires Starts(step) && StepFits(step, {})
    ensures StepReadable(step, map[], []) && |InitialRows(env, step)| == StartSize(env, step)
  {
    InitialShape(env, step);
    match step
    case JoinNode(feed, _, _) =>
      if feed.edges != [] {
        CandidatesSize(env, feed.edges, feed.nodeToJoin);
      } else if feed.nodeToJoin !in env.caches {
        IncreasingSize(SortedIds(env.ScanIds(feed.nodeToJoin)), env.ScanIds(feed.nodeToJoin));
      }
    case JoinTwoNodes(feed, _) =>
      PairRowsSize(env, feed);
  }

  /**
   A chain of one step returns everything the breadth-first execution returns, whatever the limit. These
   are the first rows the limit asks for exactly if the candidates and the store have no more to offer than the limit.
   */
  lemma OneStepIsPrefixIff(env: Env, steps: seq<StepOperation>, limit: nat, found: seq<Row>, outcome: Outcome, t: Table)
    requires ChainFits(steps) && |steps| == 1
    requires LimitedTo(env, steps, limit, found)
    requires Answers(env, ChainTree(steps), outcome, t)
    ensures outcome.Done? && found == t.rows
    ensures found == FirstOf(t.rows, limit) <==> StartSize(env, steps[0]) <= limit
  {
    NoTableJoins(steps);
    ChainTreeShape(steps);
    ChainNeverStuck(env, steps);
    ChainComputes(env, steps, t);
    InitialRowsSize(env, steps[0]);
  }

  lemma OneStepRows(env: Env, step: StepOperation)
    requires Starts(step) && StepFits(step, {})
    ensures ChainFits([step]) && |ChainRows(env, [step])| == StartSize(env, step)
  {
    InitialRowsSize(env, step);
  }

  /** The step for the pattern ?0 7 ?1. */
  ghost predicate PairOverSeven(step: StepOperation) {
    step.JoinTwoNodes? && step.twoNodes == FeedTwoNode(0, 1, Edge(EdgeInfo(0, 7, 1, P2SO), EdgeConstantInfo(false, true, false)))
  }

  /** Two triples fit the pattern; both subjects also fit ?0 8 9 and are the candidates of variable 0. */
  ghost predicate TwoFit(env: Env) {
    env.g == {Triple(1, 7, 2), Triple(3, 7, 4), Triple(1, 8, 9), Triple(3, 8, 9)} && env.caches == map[0 := [1, 3]]
  }

  lemma TwoTriples(env: Env, feed: FeedTwoNode)
    requires TwoFit(env) && feed == FeedTwoNode(0, 1, Edge(EdgeInfo(0, 7, 1, P2SO), EdgeConstantInfo(false, true, false)))
    ensures |TriplesMeeting(env, feed)| == 2
  {
    forall t ensures t in TriplesMeeting(env, feed) <==> t == Triple(1, 7, 2) || t == Triple(3, 7, 4) {
      assert 1 in env.caches[0] && 3 in env.caches[0] && 1 !in env.caches;
    }
    assert TriplesMeeting(env, feed) == {Triple(1, 7, 2), Triple(3, 7, 4)};
  }

  /**
   The query of the patterns ?0 7 ?1 and ?0 8 9, planned as the pair of its two variables with the second
   pattern in the cache of the first variable: under the limit one, two rows are returned.
   */
  lemma OneStepOverLimit(env: Env, step: StepOperation, found: seq<Row>)
    requires TwoFit(env) && PairOverSeven(step)
    ensures ChainFits([step])
    ensures LimitedTo(env, [step], 1, found) ==> |found| == 2 && found != FirstOf(ChainRows(env, [step]), 1)
  {
    OneStepRows(env, step);
    TwoTriples(env, step.twoNodes);
  }
}
