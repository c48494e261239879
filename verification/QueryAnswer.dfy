/**
 From plans back to queries: the tree built for any plan of the search's class, executed over candidate
 caches that were filled from the constant edges, returns every answer of the query once.
 */
module QueryAnswer {
  import opened Rdf
  import opened TableOperator
  import opened Semantics
  import opened StepSpec
  import opened ExactSteps
  import opened PlanChain
  import opened BasicGraphPattern
  import opened JoinGraph
  import opened PlanCost
  import opened PlanTreeBuilder
  import BF = BreadthFirst
  import opened PlanMeaning
  import opened CandidateFilters

  // ---- the binary split ----

  lemma CrossingPattern(bgp: Patterns, g: Graph, small: set<nat>, rest: set<nat>, t: TriplePattern)
    requires IsJoinGraph(g, bgp) && t in bgp && t.Joins()
    requires (t.s in rest && t.o in small) || (t.o in rest && t.s in small)
    ensures t.Within(rest + JoinNodesOf(g, small, rest))
  {
    var y, x := if t.s in rest && t.o in small then t.s else t.o, if t.s in rest && t.o in small then t.o else t.s;
    var i :| 0 <= i < |bgp| && bgp[i] == t;
    assert LinkedBy(bgp[i], y, x);
    assert y in rest && g.Adjacent(y, x);
  }

  /** Every pattern inside a set lies wholly in the small part or wholly in the other part, and the parts share exactly the join nodes. */
  lemma SplitCovers(bgp: Patterns, g: Graph, small: set<nat>, rest: set<nat>)
    requires IsJoinGraph(g, bgp) && small * rest == {}
    ensures var other := rest + JoinNodesOf(g, small, rest);
            && small * other == JoinNodesOf(g, small, rest)
            && IndicesInside(bgp, small + other) == IndicesInside(bgp, small) + IndicesInside(bgp, other)
  {
    var other := rest + JoinNodesOf(g, small, rest);
    assert JoinNodesOf(g, small, rest) <= small;
    forall x | x in small ensures x !in rest {
      assert x !in small * rest;
    }
    forall i | i in IndicesInside(bgp, small + other) ensures i in IndicesInside(bgp, small) + IndicesInside(bgp, other) {
      var t := bgp[i];
      if (t.s in rest && t.o in small) || (t.o in rest && t.s in small) {
        CrossingPattern(bgp, g, small, rest, t);
      }
    }
    forall i | i in IndicesInside(bgp, small) + IndicesInside(bgp, other) ensures i in IndicesInside(bgp, small + other) {
    }
  }

  lemma SplitConstraints(bgp: Patterns, small: set<nat>, other: set<nat>)
    requires IndicesInside(bgp, small + other) == IndicesInside(bgp, small) + IndicesInside(bgp, other)
    ensures InsideConstraints(bgp, small + other) == InsideConstraints(bgp, small) + InsideConstraints(bgp, other)
  {
    forall t | t in bgp && t.Within(small + other) ensures t.Within(small) || t.Within(other) {
      var i :| 0 <= i < |bgp| && bgp[i] == t;
      assert i in IndicesInside(bgp, small + other);
    }
  }

  lemma AllowedSplitCovers(bgp: Patterns, g: Graph, small: set<nat>, other: set<nat>)
    requires IsJoinGraph(g, bgp) && AllowedSplit(g, small, other)
    ensures InsideConstraints(bgp, small + other) == InsideConstraints(bgp, small) + InsideConstraints(bgp, other)
    ensures small * other == JoinNodesOf(g, small, (small + other) - small)
  {
    SplitCovers(bgp, g, small, (small + other) - small);
    SplitConstraints(bgp, small, other);
  }

  // ---- the tree of a plan ----

  /** The pattern of a pair joins its two nodes. */
  lemma LinkPattern(bgp: Patterns, a: nat, b: nat) returns (t: TriplePattern)
    requires |LinkEntries(bgp, a, b)| >= 1
    ensures LinkEntries(bgp, a, b)[0].index < |bgp| && t == bgp[LinkEntries(bgp, a, b)[0].index]
    ensures t in bgp && LinkedBy(t, a, b)
  {
    var e := LinkEntries(bgp, a, b)[0];
    InJoinedEntries(SoEdges(bgp, a), {b}, e);
    InSoEdges(bgp, a, e);
    t := bgp[e.index];
  }

  lemma PairVars(bgp: Patterns, distinct: bool, a: nat, b: nat)
    requires PairsSingle(bgp, P2so(a, b))
    ensures TreeOf(bgp, distinct, P2so(a, b)).Vars() == {a, b} && BF.LeavesStart(TreeOf(bgp, distinct, P2so(a, b)))
  {
    var t := LinkPattern(bgp, a, b);
    assert TreeOf(bgp, distinct, P2so(a, b)) == BF.Leaf(PairStep(t));
  }

  lemma {:induction false} TreeVars(bgp: Patterns, distinct: bool, shape: Shape)
    requires PairsSingle(bgp, shape)
    ensures TreeOf(bgp, distinct, shape).Vars() == shape.Vars() && BF.LeavesStart(TreeOf(bgp, distinct, shape))
  {
    match shape
    case Scan(_) =>
    case Extend(sub, _) => TreeVars(bgp, distinct, sub);
    case P2so(a, b) => PairVars(bgp, distinct, a, b);
    case Join(small, other) =>
      TreeVars(bgp, distinct, small);
      TreeVars(bgp, distinct, other);
  }

  /** With a single link entry, the pair's pattern is the only one inside the pair. */
  lemma PairConstraints(bgp: Patterns, a: nat, b: nat)
    requires QueryOk(bgp) && a != b && |LinkEntries(bgp, a, b)| == 1
    ensures LinkEntries(bgp, a, b)[0].index < |bgp|
    ensures InsideConstraints(bgp, {a, b}) == {PatternConstraint(bgp[LinkEntries(bgp, a, b)[0].index])}
  {
    var t := LinkPattern(bgp, a, b);
    forall u | u in bgp && u.Within({a, b}) ensures u == t {
      var i :| 0 <= i < |bgp| && bgp[i] == u;
      assert JoinsTo(u, {b}, a);
      var e := EntryOfPattern(bgp, i, {b}, a);
      assert e in LinkEntries(bgp, a, b);
    }
  }

  lemma PairTreeConstraints(bgp: Patterns, distinct: bool, a: nat, b: nat)
    requires QueryOk(bgp) && a != b && PairsSingle(bgp, P2so(a, b))
    ensures TreeOf(bgp, distinct, P2so(a, b)).Constraints() == InsideConstraints(bgp, {a, b})
  {
    PairConstraints(bgp, a, b);
    var t := LinkPattern(bgp, a, b);
    assert TreeOf(bgp, distinct, P2so(a, b)) == BF.Leaf(PairStep(t));
    assert t.pConst && t.Joins();
    assert BF.StepConstraints(PairStep(t)) == {PatternConstraint(t)};
  }

  lemma ScanTreeConstraints(bgp: Patterns, distinct: bool, v: nat)
    requires QueryOk(bgp)
    ensures TreeOf(bgp, distinct, Scan(v)).Constraints() == InsideConstraints(bgp, {v})
  {
    forall t | t in bgp ensures !t.Within({v}) {
    }
    assert InsideConstraints(bgp, {v}) == {};
    assert ConstraintsOf([]) == {};
  }

  lemma ExtendTreeConstraints(bgp: Patterns, distinct: bool, sub: Shape, v: nat)
    requires QueryOk(bgp) && PairsSingle(bgp, sub) && v !in sub.Vars()
    requires TreeOf(bgp, distinct, sub).Constraints() == InsideConstraints(bgp, sub.Vars())
    ensures TreeOf(bgp, distinct, Extend(sub, v)).Constraints() == InsideConstraints(bgp, sub.Vars() + {v})
  {
    ExtendConstraints(bgp, sub.Vars(), v);
  }

  lemma JoinTreeConstraints(bgp: Patterns, distinct: bool, small: Shape, other: Shape)
    requires PairsSingle(bgp, small) && PairsSingle(bgp, other)
    requires InsideConstraints(bgp, small.Vars() + other.Vars()) == InsideConstraints(bgp, small.Vars()) + InsideConstraints(bgp, other.Vars())
    requires TreeOf(bgp, distinct, small).Constraints() == InsideConstraints(bgp, small.Vars())
    requires TreeOf(bgp, distinct, other).Constraints() == InsideConstraints(bgp, other.Vars())
    ensures TreeOf(bgp, distinct, Join(small, other)).Constraints() == InsideConstraints(bgp, small.Vars() + other.Vars())
  {
    var tree := TreeOf(bgp, distinct, Join(small, other));
    assert tree.Constraints() == tree.left.Constraints() + tree.right.Constraints();
  }

  /** The operations of a plan's tree apply exactly the patterns between the plan's variables. */
  lemma {:induction false} TreeConstraints(bgp: Patterns, g: Graph, distinct: bool, shape: Shape)
    requires QueryOk(bgp) && IsJoinGraph(g, bgp) && PairsSingle(bgp, shape) && Allowed(g, shape, true)
    ensures TreeOf(bgp, distinct, shape).Constraints() == InsideConstraints(bgp, shape.Vars())
  {
    match shape
    case Scan(v) => ScanTreeConstraints(bgp, distinct, v);
    case Extend(sub, v) =>
      TreeConstraints(bgp, g, distinct, sub);
      ExtendTreeConstraints(bgp, distinct, sub, v);
    case P2so(a, b) => PairTreeConstraints(bgp, distinct, a, b);
    case Join(small, other) =>
      TreeConstraints(bgp, g, distinct, small);
      TreeConstraints(bgp, g, distinct, other);
      AllowedSplitCovers(bgp, g, small.Vars(), other.Vars());
      JoinTreeConstraints(bgp, distinct, small, other);
  }

  lemma EntryReads(bgp: Patterns, joined: set<nat>, next: nat, e: SoEdge)
    requires QueryOk(bgp) && next !in joined && e in JoinedEntries(SoEdges(bgp, next), joined)
    ensures e.index < |bgp|
    ensures var x := EntryEdge(bgp, e);
            && x.info.joinMethod.GivesTwo() && x.Reads() != {} && x.Reads() <= joined
            && !x.constant.FilteredIsConstant(x.info) && x.info.GetVarToFilter() == next
  {
    EntryMeaning(bgp, joined, next, e);
    EntryKind(bgp, joined, next, e);
    EntryReadsNei(bgp, next, e);
    InJoinedEntries(SoEdges(bgp, next), joined, e);
  }

  lemma EntryKind(bgp: Patterns, joined: set<nat>, next: nat, e: SoEdge)
    requires QueryOk(bgp) && e.index < |bgp| && (e.edgeIn <==> bgp[e.index].o == next) && JoinsTo(bgp[e.index], joined, next) && next !in joined
    ensures var x := EntryEdge(bgp, e);
            x.info.joinMethod.GivesTwo() && !x.constant.FilteredIsConstant(x.info) && x.info.GetVarToFilter() == next
  {
  }

  lemma EntryReadsNei(bgp: Patterns, next: nat, e: SoEdge)
    requires QueryOk(bgp) && e.index < |bgp| && bgp[e.index] in bgp && e.nei == (if e.edgeIn then bgp[e.index].s else bgp[e.index].o)
    requires e.edgeIn <==> bgp[e.index].o == next
    requires if e.edgeIn then !bgp[e.index].sConst else !bgp[e.index].oConst
    ensures EntryEdge(bgp, e).Reads() == {e.nei}
  {
  }

  /** The step for a node next to the plan has edges, and each of them reads an earlier node. */
  lemma ExtendEdgesRead(bgp: Patterns, joined: set<nat>, next: nat)
    requires QueryOk(bgp) && next !in joined
    ensures BringsIn(ExtendEdges(bgp, joined, next), next, joined)
    ensures forall x :: x in ExtendEdges(bgp, joined, next) ==> x.info.joinMethod.GivesTwo() && x.Reads() != {}
  {
    EntriesHaveIndex(bgp, next, joined);
    var list := JoinedEntries(SoEdges(bgp, next), joined);
    forall x | x in ExtendEdges(bgp, joined, next)
      ensures x.info.joinMethod.GivesTwo() && x.Reads() != {} && x.Reads() <= joined
      ensures !x.constant.FilteredIsConstant(x.info) && x.info.GetVarToFilter() == next
    {
      InEntryEdges(bgp, list, x);
      var e :| e in list && EntryEdge(bgp, e) == x;
      EntryReads(bgp, joined, next, e);
    }
  }

  lemma ExtendEdgesThere(bgp: Patterns, g: Graph, joined: set<nat>, next: nat)
    requires QueryOk(bgp) && IsJoinGraph(g, bgp) && next !in joined && g.Touches(joined, next)
    ensures ExtendEdges(bgp, joined, next) != []
  {
    EntriesHaveIndex(bgp, next, joined);
    var a :| a in joined && g.Adjacent(a, next);
    var i :| 0 <= i < |bgp| && LinkedBy(bgp[i], a, next);
    assert JoinsTo(bgp[i], joined, next);
    var e := EntryOfPattern(bgp, i, joined, next);
  }

  // ---- the tree can be executed, and its steps mean what they should ----

  /** A variable may be an entity, and also a literal if it is the object of some pattern. */
  function GetOccurPosition(bgp: Patterns, v: nat): Role {
    Role(true, exists t :: t in bgp && !t.oConst && t.o == v, false)
  }

  /** The ids in use cover the stored triples, and the variables' roles are those of the query. */
  ghost predicate EnvFits(env: Env, bgp: Patterns) {
    && (forall t :: t in env.g ==> t.s in env.entities && t.o in env.entities + env.literals)
    && (forall v :: v in SoVars(bgp) ==> v in env.roles && env.roles[v] == GetOccurPosition(bgp, v))
  }

  lemma ScanCovers(env: Env, bgp: Patterns, t: TriplePattern)
    requires EnvFits(env, bgp) && t in bgp
    ensures !t.sConst ==> forall x :: x in env.g ==> x.s in env.ScanIds(t.s)
    ensures !t.oConst ==> forall x :: x in env.g ==> x.o in env.ScanIds(t.o)
  {
    PatternVars(bgp, t);
  }

  lemma ExtendCovered(env: Env, bgp: Patterns, joined: set<nat>, next: nat)
    requires EnvFits(env, bgp) && QueryOk(bgp) && next !in joined && ExtendEdges(bgp, joined, next) != []
    ensures Covered(env, ExtendEdges(bgp, joined, next), next)
  {
    EntriesHaveIndex(bgp, next, joined);
    var list := JoinedEntries(SoEdges(bgp, next), joined);
    var e := list[0];
    EntryMeaning(bgp, joined, next, e);
    var x := EntryEdge(bgp, e);
    InEntryEdges(bgp, list, x);
    ScanCovers(env, bgp, bgp[e.index]);
    assert x in ExtendEdges(bgp, joined, next);
    forall t | t in env.g ensures FoundIn(x.info.joinMethod, t) in env.ScanIds(next) {
    }
  }

  lemma PairMeans(env: Env, bgp: Patterns, t: TriplePattern)
    requires EnvFits(env, bgp) && t in bgp && t.Joins() && t.s != t.o
    ensures StepFits(PairStep(t), {}) && LeafMeans(env, PairStep(t))
  {
    ScanCovers(env, bgp, t);
  }

  function ExtendStep(bgp: Patterns, distinct: bool, joined: set<nat>, next: nat): StepOperation {
    JoinNode(FeedOneNode(next, true, ExtendEdges(bgp, joined, next)), distinct, false)
  }

  lemma ExtendFits(bgp: Patterns, g: Graph, distinct: bool, joined: set<nat>, next: nat)
    requires QueryOk(bgp) && IsJoinGraph(g, bgp) && next !in joined && g.Touches(joined, next)
    ensures StepFits(ExtendStep(bgp, distinct, joined, next), joined)
    ensures !StepFits(ExtendStep(bgp, distinct, joined, next), {})
  {
    ExtendEdgesRead(bgp, joined, next);
    ExtendEdgesThere(bgp, g, joined, next);
    var x := ExtendEdges(bgp, joined, next)[0];
    assert x in ExtendEdges(bgp, joined, next);
  }

  lemma ExtendMeans(env: Env, bgp: Patterns, g: Graph, distinct: bool, joined: set<nat>, next: nat)
    requires QueryOk(bgp) && IsJoinGraph(g, bgp) && EnvFits(env, bgp) && next !in joined && g.Touches(joined, next)
    ensures StepMeans(env, ExtendStep(bgp, distinct, joined, next), joined)
  {
    ExtendEdgesRead(bgp, joined, next);
    ExtendEdgesThere(bgp, g, joined, next);
    ExtendCovered(env, bgp, joined, next);
  }

  lemma SharedVariables(a: set<nat>, b: set<nat>)
    ensures BF.ShareExactly(SortedIds(a * b), a, b)
  {
  }

  /** Trees of the search's plans are trees the execution accepts. */
  lemma {:induction false} TreeFitsShape(env: Env, bgp: Patterns, g: Graph, distinct: bool, shape: Shape)
    requires QueryOk(bgp) && IsJoinGraph(g, bgp) && EnvFits(env, bgp) && PairsSingle(bgp, shape) && Allowed(g, shape, true)
    ensures BF.TreeFits(TreeOf(bgp, distinct, shape)) && TreeMeans(env, TreeOf(bgp, distinct, shape))
  {
    match shape
    case Scan(_) =>
    case Extend(sub, v) =>
      TreeFitsShape(env, bgp, g, distinct, sub);
      TreeVars(bgp, distinct, sub);
      ExtendFits(bgp, g, distinct, sub.Vars(), v);
      ExtendMeans(env, bgp, g, distinct, sub.Vars(), v);
      assert TreeOf(bgp, distinct, shape) == BF.Unary(ExtendStep(bgp, distinct, sub.Vars(), v), TreeOf(bgp, distinct, sub));
    case P2so(a, b) =>
      var t := LinkPattern(bgp, a, b);
      PairMeans(env, bgp, t);
      assert TreeOf(bgp, distinct, shape) == BF.Leaf(PairStep(t));
    case Join(small, other) =>
      TreeFitsShape(env, bgp, g, distinct, small);
      TreeFitsShape(env, bgp, g, distinct, other);
      TreeVars(bgp, distinct, small);
      TreeVars(bgp, distinct, other);
      SharedVariables(small.Vars(), other.Vars());
  }

  // ---- answers ----

  /** The candidate caches are what the filters make of the candidates given from outside. */
  ghost predicate CachesFit(env: Env, bgp: Patterns, feeds: seq<FeedOneNode>, given: map<nat, seq<nat>>) {
    && QueryOk(bgp) && FeedsOk(bgp, feeds)
    && (forall f :: f in feeds ==> AllReadable(f.edges, map[], []))
    && CachedBy(env.g, feeds, given, env.caches)
  }

  lemma FilterListMeaning(g: Store, bgp: Patterns, v: nat, x: Edge, mu: Assignment)
    requires QueryOk(bgp) && FilterEdge(bgp, v, x) && v in mu
    ensures x.info.joinMethod.OneNode() && Readable(x, map[], [])
    ensures mu[v] in EdgeList(g, x, map[], []) <==> Holds(g, ConstraintOf(x), mu)
  {
    FilterReadsNothing(bgp, v, x);
    EdgeListMeaning(g, x, map[], [], mu, mu[v]);
  }

  /** A filter asks no more than its pattern does. */
  lemma FilterWeaker(g: Store, t: TriplePattern, v: nat, x: Edge, mu: Assignment)
    requires FiltersBy(t, v, x) && Holds(g, PatternConstraint(t), mu)
    ensures Holds(g, ConstraintOf(x), mu)
  {
    var triple :| triple in g && Fits(PatternConstraint(t), mu, triple);
    assert Fits(ConstraintOf(x), mu, triple);
  }

  lemma ConstantEdgeMeaning(t: TriplePattern)
    requires !t.Joins()
    ensures ConstraintOf(ConstantEdge(t)) == PatternConstraint(t)
  {
  }

  lemma AnswerPasses(env: Env, bgp: Patterns, feeds: seq<FeedOneNode>, given: map<nat, seq<nat>>, mu: Assignment, v: nat)
    requires CachesFit(env, bgp, feeds, given) && IsAnswer(env.g, bgp, given, mu) && v in mu
    ensures Passes(env.g, feeds, given, v, mu[v])
  {
    forall f, x | f in feeds && f.nodeToJoin == v && x in f.edges ensures mu[v] in EdgeList(env.g, x, map[], []) {
      assert FilterFeed(bgp, f);
      var t :| t in bgp && FiltersBy(t, v, x);
      PatternHolds(env.g, t, mu);
      FilterWeaker(env.g, t, v, x, mu);
      FilterListMeaning(env.g, bgp, v, x, mu);
    }
  }

  lemma AnswerScanned(env: Env, bgp: Patterns, given: map<nat, seq<nat>>, mu: Assignment, v: nat)
    requires EnvFits(env, bgp) && IsAnswer(env.g, bgp, given, mu) && v in mu
    ensures mu[v] in env.ScanIds(v)
  {
    var t :| t in bgp && t.About(v);
    ScanCovers(env, bgp, t);
    PatternHolds(env.g, t, mu);
  }

  lemma AnswerSatisfies(env: Env, bgp: Patterns, feeds: seq<FeedOneNode>, given: map<nat, seq<nat>>, mu: Assignment)
    requires EnvFits(env, bgp) && CachesFit(env, bgp, feeds, given) && IsAnswer(env.g, bgp, given, mu)
    ensures Satisfies(env, InsideConstraints(bgp, SoVars(bgp)), mu)
  {
    forall c | c in InsideConstraints(bgp, SoVars(bgp)) ensures Holds(env.g, c, mu) {
      var t :| t in bgp && t.Within(SoVars(bgp)) && PatternConstraint(t) == c;
      PatternHolds(env.g, t, mu);
    }
    forall v | v in mu ensures env.InDomain(v, mu[v]) {
      AnswerPasses(env, bgp, feeds, given, mu, v);
      AnswerScanned(env, bgp, given, mu, v);
    }
  }

  lemma ConstantPatternHolds(env: Env, bgp: Patterns, feeds: seq<FeedOneNode>, given: map<nat, seq<nat>>, mu: Assignment, t: TriplePattern, v: nat)
    requires CachesFit(env, bgp, feeds, given) && t in bgp && !t.Joins() && t.About(v) && v in mu && env.InDomain(v, mu[v])
    ensures Holds(env.g, PatternConstraint(t), mu)
  {
    var f :| f in feeds && f.nodeToJoin == v && ConstantEdge(t) in f.edges;
    assert FilterFeed(bgp, f);
    assert v in env.caches && Passes(env.g, feeds, given, v, mu[v]);
    assert OnAllLists(env.g, f.edges, map[], [], mu[v]);
    FilterListMeaning(env.g, bgp, v, ConstantEdge(t), mu);
    ConstantEdgeMeaning(t);
  }

  lemma SatisfyingAnswers(env: Env, bgp: Patterns, feeds: seq<FeedOneNode>, given: map<nat, seq<nat>>, mu: Assignment)
    requires CachesFit(env, bgp, feeds, given) && mu.Keys == SoVars(bgp)
    requires Satisfies(env, InsideConstraints(bgp, SoVars(bgp)), mu)
    ensures IsAnswer(env.g, bgp, given, mu)
  {
    forall t | t in bgp
      ensures Triple(ValueOf(t.s, t.sConst, mu), ValueOf(t.p, t.pConst, mu), ValueOf(t.o, t.oConst, mu)) in env.g
    {
      PatternVars(bgp, t);
      if t.Joins() {
        assert PatternConstraint(t) in InsideConstraints(bgp, SoVars(bgp));
      } else {
        ConstantPatternHolds(env, bgp, feeds, given, mu, t, if t.sConst then t.o else t.s);
      }
      PatternHolds(env.g, t, mu);
    }
    forall v | v in mu && v in given ensures mu[v] in given[v] {
      assert v in env.caches && Passes(env.g, feeds, given, v, mu[v]);
    }
  }

  /** Over all variables, satisfying the joined patterns within the candidates is answering the query. */
  lemma SatisfiesIffAnswer(env: Env, bgp: Patterns, feeds: seq<FeedOneNode>, given: map<nat, seq<nat>>, mu: Assignment)
    requires EnvFits(env, bgp) && CachesFit(env, bgp, feeds, given) && mu.Keys == SoVars(bgp)
    ensures Satisfies(env, InsideConstraints(bgp, SoVars(bgp)), mu) <==> IsAnswer(env.g, bgp, given, mu)
  {
    if Satisfies(env, InsideConstraints(bgp, SoVars(bgp)), mu) {
      SatisfyingAnswers(env, bgp, feeds, given, mu);
    }
    if IsAnswer(env.g, bgp, given, mu) {
      AnswerSatisfies(env, bgp, feeds, given, mu);
    }
  }

  /** Which row, if any, stands for an assignment. */
  ghost predicate RowFor(t: BF.Table, i: nat, mu: Assignment) {
    i < |t.rows| && Denotes(t.columns.idPos, t.columns.posId, t.rows[i], mu)
  }

  /** A query plan as the search may choose it, and what it is executed on. */
  ghost predicate Planned(env: Env, bgp: Patterns, feeds: seq<FeedOneNode>, given: map<nat, seq<nat>>, g: Graph, shape: Shape) {
    && EnvFits(env, bgp) && CachesFit(env, bgp, feeds, given) && IsJoinGraph(g, bgp)
    && PairsSingle(bgp, shape) && Allowed(g, shape, true) && shape.Vars() == SoVars(bgp)
  }

  /**
   Whatever plan of the class is chosen for all variables: if its execution goes through, the answers
   of the query are exactly the assignments of the result's rows, each answer in exactly one row; and
   the execution goes through exactly if no node is joined above a table join one of whose inputs has
   no solutions.
   */
  lemma QueryAnswered(env: Env, bgp: Patterns, feeds: seq<FeedOneNode>, given: map<nat, seq<nat>>, g: Graph, shape: Shape, distinct: bool,
                      outcome: BF.Outcome, t: BF.Table, mu: Assignment)
    requires Planned(env, bgp, feeds, given, g, shape) && mu.Keys == SoVars(bgp)
    requires BF.Answers(env, TreeOf(bgp, distinct, shape), outcome, t)
    ensures outcome.Done? <==> !ReadsLost(env, TreeOf(bgp, distinct, shape))
    ensures outcome.Done? ==> (IsAnswer(env.g, bgp, given, mu) <==> exists i :: RowFor(t, i, mu))
    ensures outcome.Done? ==> forall i, j :: RowFor(t, i, mu) && RowFor(t, j, mu) ==> i == j
  {
    var tree := TreeOf(bgp, distinct, shape);
    TreeFitsShape(env, bgp, g, distinct, shape);
    TreeVars(bgp, distinct, shape);
    assert env.CachesSorted();
    PlanExecutionMeaning(env, tree, outcome, t);
    if outcome.Done? {
      SolutionsAreRows(env, tree, t, mu);
      TreeConstraints(bgp, g, distinct, shape);
      SatisfiesIffAnswer(env, bgp, feeds, given, mu);
    }
  }

  lemma SolutionsAreRows(env: Env, tree: BF.PlanTree, t: BF.Table, mu: Assignment)
    requires BF.TreeFits(tree) && TreeMeans(env, tree) && HoldsSolutions(env, tree, t) && mu.Keys == tree.Vars()
    ensures Satisfies(env, tree.Constraints(), mu) <==> exists i :: RowFor(t, i, mu)
    ensures forall i, j :: RowFor(t, i, mu) && RowFor(t, j, mu) ==> i == j
  {
    if LosesColumns(env, tree) {
      LostMeansUnsolvable(env, tree);
      assert !IsSolution(env, tree, mu);
    } else {
      ExactMeansEachSolutionOnce(env, tree.Constraints(), t.columns.idPos, t.columns.posId, t.rows, mu);
      if Satisfies(env, tree.Constraints(), mu) {
        var i :| 0 <= i < |t.rows| && Denotes(t.columns.idPos, t.columns.posId, t.rows[i], mu);
        assert RowFor(t, i, mu);
      }
    }
  }
}
