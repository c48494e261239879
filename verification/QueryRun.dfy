/**
 A whole query: candidate lists are filtered, the cheapest plan is searched, its tree is executed, and
 the table holds the answers.
 */
module QueryRun {
  import opened Rdf
  import opened TableOperator
  import opened Semantics
  import opened StepSpec
  import opened ExecutorFilter
  import opened BasicGraphPattern
  import opened JoinGraph
  import opened PlanCost
  import opened PlanWorth
  import opened PlanGenerator
  import opened PlanTreeBuilder
  import opened PlanMeaning
  import opened CandidateFilters
  import opened QueryAnswer
  import BF = BreadthFirst

  // ---- one pattern between two variables ----

  /** No two patterns join the same two variables. */
  predicate SinglyJoined(bgp: Patterns) {
    forall i, j :: 0 <= i < j < |bgp| && bgp[i].Joins() ==> !LinkedBy(bgp[j], bgp[i].s, bgp[i].o)
  }

  lemma LinkEntryLinks(bgp: Patterns, a: nat, b: nat, k: nat)
    requires QueryOk(bgp) && a != b && k < |LinkEntries(bgp, a, b)|
    ensures LinkEntries(bgp, a, b)[k].index < |bgp| && LinkedBy(bgp[LinkEntries(bgp, a, b)[k].index], a, b)
  {
    EntryMeaning(bgp, {b}, a, LinkEntries(bgp, a, b)[k]);
  }

  lemma LinkedTwice(bgp: Patterns, a: nat, b: nat)
    requires QueryOk(bgp) && a != b
    ensures |LinkEntries(bgp, a, b)| > 1 ==> !SinglyJoined(bgp)
  {
    if |LinkEntries(bgp, a, b)| > 1 {
      var first, second := LinkEntries(bgp, a, b)[0].index, LinkEntries(bgp, a, b)[1].index;
      LinkEntryLinks(bgp, a, b, 0);
      LinkEntryLinks(bgp, a, b, 1);
      assert first < second by {
        EntriesIncreasing(bgp, a, {b});
      }
      assert LinkedBy(bgp[second], bgp[first].s, bgp[first].o);
    }
  }

  lemma SingleLink(bgp: Patterns, a: nat, b: nat)
    requires QueryOk(bgp) && SinglyJoined(bgp) && a != b && Links(bgp, a, b)
    ensures |LinkEntries(bgp, a, b)| == 1
  {
    var i :| 0 <= i < |bgp| && LinkedBy(bgp[i], a, b);
    var e := EntryOfPattern(bgp, i, {b}, a);
    assert e in LinkEntries(bgp, a, b);
    LinkedTwice(bgp, a, b);
  }

  lemma {:induction false} AllowedPairsSingle(bgp: Patterns, g: Graph, shape: Shape)
    requires QueryOk(bgp) && SinglyJoined(bgp) && IsJoinGraph(g, bgp) && Allowed(g, shape, true)
    ensures PairsSingle(bgp, shape)
  {
    match shape
    case Scan(_) =>
    case Extend(sub, _) => AllowedPairsSingle(bgp, g, sub);
    case P2so(a, b) => SingleLink(bgp, a, b);
    case Join(small, other) =>
      AllowedPairsSingle(bgp, g, small);
      AllowedPairsSingle(bgp, g, other);
  }

  lemma TwoLinks(bgp: Patterns, g: Graph, i: nat, j: nat)
    requires QueryOk(bgp) && IsJoinGraph(g, bgp) && i < j < |bgp| && bgp[i].Joins() && LinkedBy(bgp[j], bgp[i].s, bgp[i].o)
    ensures var pair := P2so(bgp[i].s, bgp[i].o); Allowed(g, pair, true) && !PairsSingle(bgp, pair)
  {
    var a, b := bgp[i].s, bgp[i].o;
    assert bgp[i] in bgp && LinkedBy(bgp[i], a, b) && g.Adjacent(a, b);
    PatternVars(bgp, bgp[i]);
    var e := EntryOfPattern(bgp, i, {b}, a);
    var f := EntryOfPattern(bgp, j, {b}, a);
    assert e in LinkEntries(bgp, a, b) && f in LinkEntries(bgp, a, b) && e != f;
  }

  /** The search may choose any plan of its class exactly if no two patterns join the same two variables. */
  lemma PlansSingleIff(bgp: Patterns, g: Graph)
    requires QueryOk(bgp) && IsJoinGraph(g, bgp)
    ensures (forall shape :: Allowed(g, shape, true) ==> PairsSingle(bgp, shape)) <==> SinglyJoined(bgp)
  {
    if SinglyJoined(bgp) {
      forall shape | Allowed(g, shape, true) ensures PairsSingle(bgp, shape) {
        AllowedPairsSingle(bgp, g, shape);
      }
    } else {
      var i, j :| 0 <= i < j < |bgp| && bgp[i].Joins() && LinkedBy(bgp[j], bgp[i].s, bgp[i].o);
      TwoLinks(bgp, g, i, j);
    }
  }

  // ---- two rounds of filters ----

  lemma PassesBoth(g: Store, first: seq<FeedOneNode>, second: seq<FeedOneNode>, given: map<nat, seq<nat>>, mid: map<nat, seq<nat>>, v: nat, x: nat)
    requires forall f :: f in first + second ==> AllReadable(f.edges, map[], [])
    requires forall f :: f in second ==> f in first + second
    requires CachedBy(g, first, given, mid)
    ensures Passes(g, second, mid, v, x) <==> Passes(g, first + second, given, v, x)
  {
    assert forall f :: f in first + second <==> f in first || f in second;
    if v !in mid {
      NeverFiltered(g, first, given, mid, v, x);
    }
  }

  /** Filtering in two rounds is filtering with all filters. */
  lemma CachedTwice(g: Store, first: seq<FeedOneNode>, second: seq<FeedOneNode>, given: map<nat, seq<nat>>, mid: map<nat, seq<nat>>,
                    after: map<nat, seq<nat>>)
    requires (forall f :: f in first ==> AllReadable(f.edges, map[], [])) && forall f :: f in second ==> AllReadable(f.edges, map[], [])
    requires CachedBy(g, first, given, mid) && CachedBy(g, second, mid, after)
    ensures forall f :: f in first + second ==> AllReadable(f.edges, map[], [])
    ensures CachedBy(g, first + second, given, after)
  {
    assert forall f :: f in first + second <==> f in first || f in second;
    forall v, x | v in after ensures x in after[v] <==> Passes(g, first + second, given, v, x) {
      PassesBoth(g, first, second, given, mid, v, x);
    }
  }

  lemma FeedsTogether(bgp: Patterns, first: seq<FeedOneNode>, second: seq<FeedOneNode>)
    requires FeedsOk(bgp, first) && forall f :: f in second ==> FilterFeed(bgp, f)
    ensures FeedsOk(bgp, first + second)
  {
    forall t, v | t in bgp && !t.Joins() && t.About(v)
      ensures exists f :: f in first + second && f.nodeToJoin == v && ConstantEdge(t) in f.edges
    {
      var f :| f in first && f.nodeToJoin == v && ConstantEdge(t) in f.edges;
      assert f in first + second;
    }
  }

  /** Fills the candidate caches before planning: constant edges first, then the chosen predicate filters. */
  method FilterCandidates(env: Env, bgp: Patterns, variables: seq<nat>, caches: IDCaches) returns (ghost feeds: seq<FeedOneNode>)
    requires QueryOk(bgp) && Elements(variables) == SoVars(bgp)
    requires forall v :: v in caches.lists ==> StrictlyIncreasing(caches.lists[v])
    modifies caches
    ensures CachesFit(env.(caches := caches.lists), bgp, feeds, old(caches.lists))
  {
    ghost var given := caches.lists;
    var first := OnlyConstFilter(bgp, variables);
    RunFilters(env.g, bgp, first, caches);
    ghost var mid := caches.lists;
    var second := Completecandidate(bgp, variables);
    RunFilters(env.g, bgp, second, caches);
    CachedTwice(env.g, first, second, given, mid, caches.lists);
    FeedsTogether(bgp, first, second);
    feeds := first + second;
  }

  // ---- the query ----

  /** The table shows the answers of the query, each in exactly one row. */
  ghost predicate ShowsAnswers(g: Store, bgp: Patterns, given: map<nat, seq<nat>>, t: BF.Table) {
    forall mu: Assignment :: mu.Keys == SoVars(bgp) ==> ShownOnce(g, bgp, given, t, mu)
  }

  ghost predicate ShownOnce(g: Store, bgp: Patterns, given: map<nat, seq<nat>>, t: BF.Table, mu: Assignment) {
    && (IsAnswer(g, bgp, given, mu) <==> exists i :: RowFor(t, i, mu))
    && (forall i, j :: RowFor(t, i, mu) && RowFor(t, j, mu) ==> i == j)
  }

  lemma RunAnswered(env: Env, bgp: Patterns, feeds: seq<FeedOneNode>, given: map<nat, seq<nat>>, g: Graph, shape: Shape, distinct: bool,
                    outcome: BF.Outcome, t: BF.Table)
    requires Planned(env, bgp, feeds, given, g, shape)
    requires BF.Answers(env, TreeOf(bgp, distinct, shape), outcome, t)
    ensures outcome.Done? <==> !ReadsLost(env, TreeOf(bgp, distinct, shape))
    ensures outcome.Done? ==> ShowsAnswers(env.g, bgp, given, t)
  {
    forall mu: Assignment | mu.Keys == SoVars(bgp)
      ensures outcome.Done? ==> ShownOnce(env.g, bgp, given, t, mu)
      ensures outcome.Done? <==> !ReadsLost(env, TreeOf(bgp, distinct, shape))
    {
      QueryAnswered(env, bgp, feeds, given, g, shape, distinct, outcome, t, mu);
    }
    var some: Assignment := map v | v in SoVars(bgp) :: 0;
    assert some.Keys == SoVars(bgp);
  }

  /**
   Filters, plans and executes a query in which no two patterns join the same two variables. The plan is
   the cheapest of the class; the execution goes through exactly if the plan reads no column that a table
   join has lost; and then the table shows the answers of the query, each in exactly one row.
   */
  method DoQuery(env: Env, bgp: Patterns, distinct: bool, variables: seq<nat>, caches: IDCaches, generator: PlanGenerator)
    returns (outcome: BF.Outcome, table: IntermediateResult, best: Plan)
    requires QueryOk(bgp) && SinglyJoined(bgp) && EnvFits(env, bgp) && Elements(variables) == SoVars(bgp)
    requires forall v :: v in caches.lists ==> StrictlyIncreasing(caches.lists[v])
    requires IsJoinGraph(generator.graph, bgp) && generator.graph.Connected(generator.graph.nodes)
    requires generator.graph.nodes == (set v | v in generator.joinNodes) && |generator.joinNodes| == |generator.graph.nodes| >= 2
    requires generator.planCache == [] && generator.cardCache == [] && generator.averages == map[]
    modifies caches, generator
    ensures fresh(table)
    ensures CheapestPlan(generator.graph, generator.samples, best, SoVars(bgp), true)
    ensures PairsSingle(bgp, best.shape)
    ensures outcome.Done? <==> !ReadsLost(env.(caches := caches.lists), TreeOf(bgp, distinct, best.shape))
    ensures outcome.Done? ==> ShowsAnswers(env.g, bgp, old(caches.lists), BF.TableOf(table))
  {
    ghost var given := caches.lists;
    ghost var feeds := FilterCandidates(env, bgp, variables, caches);
    var filtered := env.(caches := caches.lists);
    var ok, resSize, cost;
    ok, best, resSize, cost := generator.GetPlan(true);
    AllowedPairsSingle(bgp, generator.graph, best.shape);
    TreeFitsShape(filtered, bgp, generator.graph, distinct, best.shape);
    outcome, table := BF.ExecutionBreathFirst(filtered, TreeOf(bgp, distinct, best.shape));
    RunAnswered(filtered, bgp, feeds, given, generator.graph, best.shape, distinct, outcome, BF.TableOf(table));
  }
}
