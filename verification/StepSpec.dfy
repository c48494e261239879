/**
 The rows each plan step makes out of one input row, stated without loops, lists being consumed or
 position bookkeeping. The executor's methods are proved against these functions.
 */
module StepSpec {
  import opened Rdf
  import opened Sequences
  import opened TableOperator
  import opened Semantics

  ghost predicate Readable(e: Edge, idPos: PositionValue, row: Row) {
    forall v :: v in e.Reads() ==> v in idPos && idPos[v] < |row|
  }

  /** The id at a given position: the constant itself or the row's value for the variable. */
  function Given(given: bool, id: nat, isConstant: bool, idPos: PositionValue, row: Row): nat
    requires given && !isConstant ==> id in idPos && idPos[id] < |row|
  {
    if !given then 0 else if isConstant then id else row[idPos[id]]
  }

  function Lookup(g: Store, m: JoinMethod, s: nat, p: nat, o: nat): seq<nat>
    requires m.OneNode()
  {
    match m
    case S2P => PreIdsBySub(g, s)
    case S2O => ObjIdsBySub(g, s)
    case P2S => SubIdsByPre(g, p)
    case P2O => ObjIdsByPre(g, p)
    case O2S => SubIdsByObj(g, o)
    case O2P => PreIdsByObj(g, o)
    case SO2P => PreIdsBySubObj(g, s, o)
    case SP2O => ObjIdsBySubPre(g, s, p)
    case PO2S => SubIdsByObjPre(g, o, p)
  }

  /** The ids an edge allows at the position it looks up, given the row. */
  function EdgeList(g: Store, e: Edge, idPos: PositionValue, row: Row): seq<nat>
    requires e.info.joinMethod.OneNode() && Readable(e, idPos, row)
  {
    var m := e.info.joinMethod;
    assert m.GivesS() && !e.constant.sConstant ==> e.info.s in e.Reads();
    assert m.GivesP() && !e.constant.pConstant ==> e.info.p in e.Reads();
    assert m.GivesO() && !e.constant.oConstant ==> e.info.o in e.Reads();
    Lookup(g, m,
           Given(m.GivesS(), e.info.s, e.constant.sConstant, idPos, row),
           Given(m.GivesP(), e.info.p, e.constant.pConstant, idPos, row),
           Given(m.GivesO(), e.info.o, e.constant.oConstant, idPos, row))
  }

  ghost predicate LookupFits(m: JoinMethod, s: nat, p: nat, o: nat, x: nat, t: Triple) {
    && (m.GivesS() ==> t.s == s) && (m.GivesP() ==> t.p == p) && (m.GivesO() ==> t.o == o)
    && (m.FindsS() ==> t.s == x) && (m.FindsP() ==> t.p == x) && (m.FindsO() ==> t.o == x)
  }

  lemma SubjectLookup(g: Store, m: JoinMethod, s: nat, p: nat, o: nat, x: nat)
    requires m.OneNode() && m.FindsS()
    ensures x in Lookup(g, m, s, p, o) <==> exists t :: t in g && LookupFits(m, s, p, o, x, t)
  {
    var r := Lookup(g, m, s, p, o);
    if x in r {
      var t: Triple :| t in g && t.s == x && (m.GivesP() ==> t.p == p) && (m.GivesO() ==> t.o == o);
      assert LookupFits(m, s, p, o, x, t);
    }
    forall t | t in g && LookupFits(m, s, p, o, x, t) ensures x in r {
      assert t == Triple(x, t.p, t.o);
    }
  }

  lemma PredicateLookup(g: Store, m: JoinMethod, s: nat, p: nat, o: nat, x: nat)
    requires m.OneNode() && m.FindsP()
    ensures x in Lookup(g, m, s, p, o) <==> exists t :: t in g && LookupFits(m, s, p, o, x, t)
  {
    var r := Lookup(g, m, s, p, o);
    if x in r {
      var t: Triple :| t in g && t.p == x && (m.GivesS() ==> t.s == s) && (m.GivesO() ==> t.o == o);
      assert LookupFits(m, s, p, o, x, t);
    }
    forall t | t in g && LookupFits(m, s, p, o, x, t) ensures x in r {
      assert t == Triple(t.s, x, t.o);
    }
  }

  lemma ObjectLookup(g: Store, m: JoinMethod, s: nat, p: nat, o: nat, x: nat)
    requires m.OneNode() && m.FindsO()
    ensures x in Lookup(g, m, s, p, o) <==> exists t :: t in g && LookupFits(m, s, p, o, x, t)
  {
    var r := Lookup(g, m, s, p, o);
    if x in r {
      var t: Triple :| t in g && t.o == x && (m.GivesS() ==> t.s == s) && (m.GivesP() ==> t.p == p);
      assert LookupFits(m, s, p, o, x, t);
    }
    forall t | t in g && LookupFits(m, s, p, o, x, t) ensures x in r {
      assert t == Triple(t.s, t.p, x);
    }
  }

  lemma LookupMeaning(g: Store, m: JoinMethod, s: nat, p: nat, o: nat, x: nat)
    requires m.OneNode()
    ensures x in Lookup(g, m, s, p, o) <==> exists t :: t in g && LookupFits(m, s, p, o, x, t)
  {
    if m.FindsS() {
      SubjectLookup(g, m, s, p, o, x);
    } else if m.FindsP() {
      PredicateLookup(g, m, s, p, o, x);
    } else {
      ObjectLookup(g, m, s, p, o, x);
    }
  }

  lemma LookupFitsIsFits(e: Edge, mu: Assignment, s: nat, p: nat, o: nat, x: nat, t: Triple)
    requires e.info.joinMethod.OneNode()
    requires e.info.joinMethod.GivesS() ==> s == ValueOf(e.info.s, e.constant.sConstant, mu)
    requires e.info.joinMethod.GivesP() ==> p == ValueOf(e.info.p, e.constant.pConstant, mu)
    requires e.info.joinMethod.GivesO() ==> o == ValueOf(e.info.o, e.constant.oConstant, mu)
    requires x == ValueOf(e.info.GetVarToFilter(), e.constant.FilteredIsConstant(e.info), mu)
    ensures LookupFits(e.info.joinMethod, s, p, o, x, t) <==> Fits(ConstraintOf(e), mu, t)
  {
  }

  /** An id is on an edge's list exactly if the assignment extended by that id satisfies the edge. */
  lemma EdgeListMeaning(g: Store, e: Edge, idPos: PositionValue, row: Row, mu: Assignment, x: nat)
    requires e.info.joinMethod.OneNode() && Readable(e, idPos, row)
    requires forall v :: v in e.Reads() ==> v in mu && mu[v] == row[idPos[v]]
    requires x == ValueOf(e.info.GetVarToFilter(), e.constant.FilteredIsConstant(e.info), mu)
    ensures x in EdgeList(g, e, idPos, row) <==> Holds(g, ConstraintOf(e), mu)
  {
    var m := e.info.joinMethod;
    assert m.GivesS() && !e.constant.sConstant ==> e.info.s in e.Reads();
    assert m.GivesP() && !e.constant.pConstant ==> e.info.p in e.Reads();
    assert m.GivesO() && !e.constant.oConstant ==> e.info.o in e.Reads();
    var s := Given(m.GivesS(), e.info.s, e.constant.sConstant, idPos, row);
    var p := Given(m.GivesP(), e.info.p, e.constant.pConstant, idPos, row);
    var o := Given(m.GivesO(), e.info.o, e.constant.oConstant, idPos, row);
    LookupIsHolds(g, e, mu, s, p, o, x);
  }

  lemma LookupIsHolds(g: Store, e: Edge, mu: Assignment, s: nat, p: nat, o: nat, x: nat)
    requires e.info.joinMethod.OneNode()
    requires e.info.joinMethod.GivesS() ==> s == ValueOf(e.info.s, e.constant.sConstant, mu)
    requires e.info.joinMethod.GivesP() ==> p == ValueOf(e.info.p, e.constant.pConstant, mu)
    requires e.info.joinMethod.GivesO() ==> o == ValueOf(e.info.o, e.constant.oConstant, mu)
    requires x == ValueOf(e.info.GetVarToFilter(), e.constant.FilteredIsConstant(e.info), mu)
    ensures x in Lookup(g, e.info.joinMethod, s, p, o) <==> Holds(g, ConstraintOf(e), mu)
  {
    LookupMeaning(g, e.info.joinMethod, s, p, o, x);
    forall t ensures LookupFits(e.info.joinMethod, s, p, o, x, t) <==> Fits(ConstraintOf(e), mu, t) {
      LookupFitsIsFits(e, mu, s, p, o, x, t);
    }
  }

  ghost predicate AllReadable(edges: seq<Edge>, idPos: PositionValue, row: Row) {
    forall e :: e in edges ==> e.info.joinMethod.OneNode() && Readable(e, idPos, row)
  }

  ghost predicate OnAllLists(g: Store, edges: seq<Edge>, idPos: PositionValue, row: Row, x: nat)
    requires AllReadable(edges, idPos, row)
  {
    forall e :: e in edges ==> x in EdgeList(g, e, idPos, row)
  }

  /** The ids for a node: on every edge's list and in its candidate cache, if it has one. No edge, no id. */
  ghost function Candidates(env: Env, edges: seq<Edge>, id: nat, idPos: PositionValue, row: Row): seq<nat>
    requires AllReadable(edges, idPos, row)
  {
    if edges == [] then [] else
      SortedIds(set x | x in EdgeList(env.g, edges[0], idPos, row)
                        && OnAllLists(env.g, edges, idPos, row, x)
                        && (id in env.caches ==> x in env.caches[id]))
  }

  lemma InCandidates(env: Env, edges: seq<Edge>, id: nat, idPos: PositionValue, row: Row, x: nat)
    requires AllReadable(edges, idPos, row)
    ensures x in Candidates(env, edges, id, idPos, row) <==>
              edges != [] && OnAllLists(env.g, edges, idPos, row, x) && (id in env.caches ==> x in env.caches[id])
    ensures StrictlyIncreasing(Candidates(env, edges, id, idPos, row))
  {
    if edges != [] {
      assert edges[0] in edges;
    }
  }

  ghost function Extended(row: Row, ids: seq<nat>): seq<Row> {
    seq(|ids|, i requires 0 <= i < |ids| => row + [ids[i]])
  }

  ghost function Copies(row: Row, n: nat): seq<Row> {
    seq(n, i => row)
  }

  /** What one record contributes, given its candidates for the node. */
  ghost function RecordRows(row: Row, ids: seq<nat>, added: bool, distinct: bool): seq<Row> {
    if added then Extended(row, ids)
    else if distinct then (if ids == [] then [] else [row])
    else Copies(row, |ids|)
  }

  ghost function JoinNodeRow(env: Env, feed: FeedOneNode, distinct: bool, idPos: PositionValue, row: Row): seq<Row>
    requires AllReadable(feed.edges, idPos, row)
  {
    RecordRows(row, Candidates(env, feed.edges, feed.nodeToJoin, idPos, row), feed.addedIntoTable, distinct)
  }

  /** The pairs an edge with two unknown positions allows, before the candidate caches are looked at. */
  function PairList(g: Store, e: Edge, idPos: PositionValue, row: Row): seq<(nat, nat)>
    requires e.info.joinMethod.TwoNode() && Readable(e, idPos, row)
  {
    assert e.info.joinMethod.GivesS() && !e.constant.sConstant ==> e.info.s in e.Reads();
    assert e.info.joinMethod.GivesP() && !e.constant.pConstant ==> e.info.p in e.Reads();
    assert e.info.joinMethod.GivesO() && !e.constant.oConstant ==> e.info.o in e.Reads();
    match e.info.joinMethod
    case S2PO => PreObjPairsBySub(g, Given(true, e.info.s, e.constant.sConstant, idPos, row))
    case P2SO => SubObjPairsByPre(g, Given(true, e.info.p, e.constant.pConstant, idPos, row))
    case O2PS => PreSubPairsByObj(g, Given(true, e.info.o, e.constant.oConstant, idPos, row))
  }

  predicate PairAllowed(env: Env, id1: nat, id2: nat, pair: (nat, nat)) {
    (id1 in env.caches ==> pair.0 in env.caches[id1]) && (id2 in env.caches ==> pair.1 in env.caches[id2])
  }

  function AllowedPairs(env: Env, id1: nat, id2: nat, pairs: seq<(nat, nat)>): (r: seq<(nat, nat)>)
    ensures forall pair :: pair in r <==> pair in pairs && PairAllowed(env, id1, id2, pair)
  {
    if pairs == [] then [] else
      var rest := AllowedPairs(env, id1, id2, pairs[1..]);
      if PairAllowed(env, id1, id2, pairs[0]) then [pairs[0]] + rest else rest
  }

  ghost function ExtendedByPairs(row: Row, pairs: seq<(nat, nat)>): seq<Row> {
    seq(|pairs|, i requires 0 <= i < |pairs| => row + [pairs[i].0, pairs[i].1])
  }

  ghost function JoinTwoNodesRow(env: Env, feed: FeedTwoNode, idPos: PositionValue, row: Row): seq<Row>
    requires feed.edge.info.joinMethod.TwoNode() && Readable(feed.edge, idPos, row)
  {
    ExtendedByPairs(row, AllowedPairs(env, feed.nodeToJoin1, feed.nodeToJoin2, PairList(env.g, feed.edge, idPos, row)))
  }

  ghost predicate Checkable(e: Edge, idPos: PositionValue, row: Row) {
    && e.info.joinMethod.OneNode() && Readable(e, idPos, row)
    && (e.constant.FilteredIsConstant(e.info) || (e.info.GetVarToFilter() in idPos && idPos[e.info.GetVarToFilter()] < |row|))
  }

  predicate PassesEdge(g: Store, e: Edge, idPos: PositionValue, row: Row)
    requires Checkable(e, idPos, row)
  {
    Given(true, e.info.GetVarToFilter(), e.constant.FilteredIsConstant(e.info), idPos, row) in EdgeList(g, e, idPos, row)
  }

  ghost function EdgeCheckRow(env: Env, edges: seq<Edge>, idPos: PositionValue, row: Row): seq<Row>
    requires forall e :: e in edges ==> Checkable(e, idPos, row)
  {
    if forall e :: e in edges ==> PassesEdge(env.g, e, idPos, row) then [row] else []
  }

  /** What a step needs of the columns it reads and of the row's width. */
  ghost predicate StepReadable(step: StepOperation, idPos: PositionValue, row: Row) {
    match step
    case JoinNode(feed, _, _) => AllReadable(feed.edges, idPos, row)
    case JoinTwoNodes(feed, _) => feed.edge.info.joinMethod.TwoNode() && Readable(feed.edge, idPos, row)
    case EdgeCheck(feed, _) => forall e :: e in feed.edges ==> Checkable(e, idPos, row)
    case JoinTable(_, _) => false
  }

  ghost function StepRow(env: Env, step: StepOperation, idPos: PositionValue, row: Row): seq<Row>
    requires StepReadable(step, idPos, row)
  {
    match step
    case JoinNode(feed, distinct, _) => JoinNodeRow(env, feed, distinct, idPos, row)
    case JoinTwoNodes(feed, _) => JoinTwoNodesRow(env, feed, idPos, row)
    case EdgeCheck(feed, _) => EdgeCheckRow(env, feed.edges, idPos, row)
  }

  ghost function StepFunction(env: Env, step: StepOperation, idPos: PositionValue): Row --> seq<Row> {
    (row: Row) requires StepReadable(step, idPos, row) => StepRow(env, step, idPos, row)
  }

  ghost predicate AllStepReadable(step: StepOperation, idPos: PositionValue, rows: seq<Row>) {
    forall row :: row in rows ==> StepReadable(step, idPos, row)
  }

  /** The rows a step makes out of a list of rows, in order. */
  ghost function StepRows(env: Env, step: StepOperation, idPos: PositionValue, rows: seq<Row>): seq<Row>
    requires AllStepReadable(step, idPos, rows)
  {
    FlatMap(StepFunction(env, step, idPos), rows)
  }

  lemma StepRowsAppend(env: Env, step: StepOperation, idPos: PositionValue, a: seq<Row>, b: seq<Row>)
    requires AllStepReadable(step, idPos, a) && AllStepReadable(step, idPos, b)
    ensures AllStepReadable(step, idPos, a + b)
    ensures StepRows(env, step, idPos, a + b) == StepRows(env, step, idPos, a) + StepRows(env, step, idPos, b)
  {
    FlatMapAppend(StepFunction(env, step, idPos), a, b);
  }

  lemma StepRowsSingle(env: Env, step: StepOperation, idPos: PositionValue, row: Row)
    requires StepReadable(step, idPos, row)
    ensures StepRows(env, step, idPos, [row]) == StepRow(env, step, idPos, row)
  {
    FlatMapSingle(StepFunction(env, step, idPos), row);
  }

  /** The columns after a step: one more, two more, or the same. */
  ghost function StepIdPos(step: StepOperation, idPos: PositionValue, posId: PositionValue): PositionValue {
    match step
    case JoinNode(feed, _, _) => if feed.addedIntoTable then AddedIdPos(idPos, posId, feed.nodeToJoin) else idPos
    case JoinTwoNodes(feed, _) =>
      AddedIdPos(AddedIdPos(idPos, posId, feed.nodeToJoin1), AddedPosId(posId, feed.nodeToJoin1), feed.nodeToJoin2)
    case _ => idPos
  }

  ghost function StepPosId(step: StepOperation, posId: PositionValue): PositionValue {
    match step
    case JoinNode(feed, _, _) => if feed.addedIntoTable then AddedPosId(posId, feed.nodeToJoin) else posId
    case JoinTwoNodes(feed, _) => AddedPosId(AddedPosId(posId, feed.nodeToJoin1), feed.nodeToJoin2)
    case _ => posId
  }

  /** The rows of the first table of a plan. A scanned node is always stored, whatever its plan says. */
  ghost function InitialRows(env: Env, step: StepOperation): seq<Row>
    requires StepReadable(step, map[], [])
    requires !step.EdgeCheck?
  {
    match step
    case JoinNode(feed, _, _) =>
      var id := feed.nodeToJoin;
      if feed.edges != [] then Extended([], Candidates(env, feed.edges, id, map[], []))
      else if id in env.caches then Extended([], env.caches[id])
      else Extended([], SortedIds(env.ScanIds(id)))
    case JoinTwoNodes(feed, _) => JoinTwoNodesRow(env, feed, map[], [])
  }

  ghost function InitialIdPos(step: StepOperation): PositionValue
    requires step.JoinNode? || step.JoinTwoNodes?
  {
    match step
    case JoinNode(feed, _, _) => AddedIdPos(map[], map[], feed.nodeToJoin)
    case JoinTwoNodes(_, _) => StepIdPos(step, map[], map[])
  }

  ghost function InitialPosId(step: StepOperation): PositionValue
    requires step.JoinNode? || step.JoinTwoNodes?
  {
    match step
    case JoinNode(feed, _, _) => AddedPosId(map[], feed.nodeToJoin)
    case JoinTwoNodes(_, _) => StepPosId(step, map[])
  }
}
