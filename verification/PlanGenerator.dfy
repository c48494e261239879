/**
 The plan search: a dynamic program over connected sets of variables that fills a cache of plans and a
 cache of estimated sizes level by level.
 */
module PlanGenerator {
  import opened JoinGraph
  import opened PlanCost
  import opened PlanWorth

  type CardLevel = map<set<nat>, nat>
  type AverageCache = map<(nat, nat), real>

  /** A level of the size cache holds sampled sizes of sets of its size. */
  ghost predicate CardsOk(m: Samples, level: CardLevel, size: nat) {
    forall s :: s in level ==> |s| == size && level[s] == m.Card(s)
  }

  ghost predicate AllCardsOk(m: Samples, cardCache: seq<CardLevel>) {
    forall i :: 0 <= i < |cardCache| ==> CardsOk(m, cardCache[i], i + 2)
  }

  ghost predicate AveragesOk(m: Samples, averages: AverageCache) {
    forall a, b :: (a, b) in averages ==> averages[(a, b)] == m.Average(a, b)
  }

  /** A pair's averages are there whenever its size is. */
  ghost predicate PairsAveraged(cardCache: seq<CardLevel>, averages: AverageCache) {
    |cardCache| > 0 ==> forall a, b :: a != b && {a, b} in cardCache[0] ==> (a, b) in averages
  }

  ghost predicate EstimatesOk(m: Samples, cardCache: seq<CardLevel>, averages: AverageCache) {
    AllCardsOk(m, cardCache) && AveragesOk(m, averages) && PairsAveraged(cardCache, averages)
  }

  predicate Cached(cardCache: seq<CardLevel>, now: set<nat>)
    requires |now| >= 2
  {
    |cardCache| >= |now| - 1 && now in cardCache[|now| - 2]
  }

  /** The size cache with one more entry; the first entry of a level opens the level, and no entry is replaced. */
  function CardsWith(cardCache: seq<CardLevel>, now: set<nat>, card: nat): seq<CardLevel>
    requires |now| >= 2 && |cardCache| >= |now| - 2
  {
    if |cardCache| < |now| - 1 then cardCache + [map[now := card]]
    else if now in cardCache[|now| - 2] then cardCache
    else
      var level: CardLevel := cardCache[|now| - 2][now := card];
      cardCache[|now| - 2 := level]
  }

  function AveragesWith(m: Samples, averages: AverageCache, from: nat, to: nat): AverageCache {
    if (from, to) in averages then averages else averages[(from, to) := m.Average(from, to)]
  }

  function PairAverages(m: Samples, averages: AverageCache, x: nat, y: nat): AverageCache {
    AveragesWith(m, AveragesWith(m, averages, x, y), y, x)
  }

  lemma PairElements(a: nat, b: nat, x: nat, y: nat)
    requires {a, b} == {x, y} && a != b
    ensures (a == x && b == y) || (a == y && b == x)
  {
    assert a in {a, b} && b in {a, b} && x in {a, b} && y in {a, b};
  }

  lemma CardsWithOk(m: Samples, cardCache: seq<CardLevel>, now: set<nat>)
    requires AllCardsOk(m, cardCache) && |now| >= 2 && |cardCache| >= |now| - 2
    ensures AllCardsOk(m, CardsWith(cardCache, now, m.Card(now)))
    ensures Cached(CardsWith(cardCache, now, m.Card(now)), now)
  {
    var after := CardsWith(cardCache, now, m.Card(now));
    forall i | 0 <= i < |after| ensures CardsOk(m, after[i], i + 2) {
      if i < |cardCache| {
        assert CardsOk(m, cardCache[i], i + 2);
      }
    }
  }

  lemma PairAveragesOk(m: Samples, cardCache: seq<CardLevel>, averages: AverageCache, x: nat, y: nat)
    requires EstimatesOk(m, cardCache, averages) && x != y
    ensures |{x, y}| == 2
    ensures EstimatesOk(m, CardsWith(cardCache, {x, y}, m.Card({x, y})), PairAverages(m, averages, x, y))
    ensures (x, y) in PairAverages(m, averages, x, y) && (y, x) in PairAverages(m, averages, x, y)
  {
    CardsWithOk(m, cardCache, {x, y});
    var after := CardsWith(cardCache, {x, y}, m.Card({x, y}));
    forall a, b | a != b && {a, b} in after[0] ensures (a, b) in PairAverages(m, averages, x, y) {
      if {a, b} == {x, y} {
        PairElements(a, b, x, y);
      }
    }
  }

  lemma LargerCardOk(m: Samples, cardCache: seq<CardLevel>, averages: AverageCache, now: set<nat>)
    requires EstimatesOk(m, cardCache, averages) && |now| > 2 && |cardCache| >= |now| - 2
    ensures EstimatesOk(m, CardsWith(cardCache, now, m.Card(now)), averages)
  {
    CardsWithOk(m, cardCache, now);
  }

  // ---- the plan cache ----

  function PlansOf(level: PlanLevel, now: set<nat>): seq<Plan> {
    if now in level then level[now] else []
  }

  function LevelWith(level: PlanLevel, now: set<nat>, plan: Plan): PlanLevel {
    level[now := if now in level then level[now] + [plan] else [plan]]
  }

  /** A cache that may have been opened for one more size. */
  function Opened<T>(cache: seq<map<set<nat>, T>>, level: map<set<nat>, T>): seq<map<set<nat>, T>> {
    if level.Keys == {} then cache else cache + [level]
  }

  /** Every finished level of the size cache holds the connected sets of its size. */
  ghost predicate CardLevelsComplete(g: Graph, cardCache: seq<CardLevel>, k: nat) {
    |cardCache| >= k - 2 && forall i :: 0 <= i < k - 2 ==> Complete(g, cardCache[i].Keys, i + 2)
  }

  lemma LinkedArePairs(g: Graph, last: set<nat>, next: nat)
    requires g.Valid() && last <= g.nodes && next in Neighbours(g, last)
    ensures LinkedNeighbours(g, last, next) != []
    ensures forall x :: x in LinkedNeighbours(g, last, next) ==> x != next && g.Connected({x, next}) && |{x, next}| == 2
  {
    var a :| a in last && g.Adjacent(a, next);
    assert g.Adjacent(next, a);
    assert a in LinkedNeighbours(g, last, next);
    forall x | x in LinkedNeighbours(g, last, next) ensures g.Connected({x, next}) {
      SingleConnected(g, x);
      assert g.Adjacent(next, x) && g.Adjacent(x, next) && x in {x};
      ExtendConnected(g, {x}, next);
      assert {x} + {next} == {x, next};
    }
  }

  /** A level in the making: sound plans for connected sets of one size. */
  ghost predicate LevelSound(g: Graph, m: Samples, level: PlanLevel, k: nat, useBinaryJoin: bool) {
    forall s :: s in level ==> g.Connected(s) && |s| == k && PlansSound(g, m, level[s], s, useBinaryJoin)
  }

  /** The offers of some nodes on top of one set have been put into the level. */
  ghost predicate Offered(g: Graph, m: Samples, plans: seq<Plan>, level: PlanLevel, last: set<nat>, nodes: set<nat>)
    requires last != {} && plans != []
  {
    forall next :: next in nodes ==> Offer(g, m, last, Cheapest(plans), next) in PlansOf(level, last + {next})
  }

  lemma OfferedStays(g: Graph, m: Samples, plans: seq<Plan>, level: PlanLevel, last: set<nat>, nodes: set<nat>, now: set<nat>, plan: Plan)
    requires last != {} && plans != [] && Offered(g, m, plans, level, last, nodes)
    ensures Offered(g, m, plans, LevelWith(level, now, plan), last, nodes)
  {
  }

  ghost predicate AllOffered(g: Graph, m: Samples, previous: PlanLevel, level: PlanLevel, done: set<set<nat>>)
    requires forall last :: last in previous ==> last != {} && previous[last] != []
    requires done <= previous.Keys
  {
    forall last :: last in done ==> Offered(g, m, previous[last], level, last, Neighbours(g, last))
  }

  lemma LevelWithSound(g: Graph, m: Samples, level: PlanLevel, k: nat, useBinaryJoin: bool, now: set<nat>, plan: Plan)
    requires LevelSound(g, m, level, k, useBinaryJoin) && g.Connected(now) && |now| == k
    requires PlansSound(g, m, [plan], now, useBinaryJoin)
    ensures LevelSound(g, m, LevelWith(level, now, plan), k, useBinaryJoin)
  {
    assert plan in [plan];
  }

  ghost predicate LevelOptimalButJoins(g: Graph, m: Samples, level: PlanLevel, k: nat, useBinaryJoin: bool) {
    Complete(g, level.Keys, k) && forall s :: s in level ==> OptimalButJoins(g, m, level[s], s, useBinaryJoin)
  }

  /** When all offers are in, the level is complete, and optimal up to binary joins. */
  lemma OffersMakeLevel(g: Graph, m: Samples, previous: PlanLevel, level: PlanLevel, k: nat, useBinaryJoin: bool)
    requires g.Valid() && k >= 2 && LevelOptimal(g, m, previous, k - 1, useBinaryJoin)
    requires forall last :: last in previous ==> last != {} && previous[last] != []
    requires LevelSound(g, m, level, k, useBinaryJoin) && AllOffered(g, m, previous, level, previous.Keys)
    ensures LevelOptimalButJoins(g, m, level, k, useBinaryJoin)
  {
    forall s | g.Connected(s) && |s| == k ensures s in level {
      var next := OfferedFrom(g, s);
      var last := s - {next};
      assert last in previous && Offered(g, m, previous[last], level, last, Neighbours(g, last));
      assert Offer(g, m, last, Cheapest(previous[last]), next) in PlansOf(level, last + {next});
    }
    forall s | s in level ensures OptimalButJoins(g, m, level[s], s, useBinaryJoin) {
      SetOptimalButJoins(g, m, previous, level, s, useBinaryJoin);
    }
  }

  lemma SetOptimalButJoins(g: Graph, m: Samples, previous: PlanLevel, level: PlanLevel, s: set<nat>, useBinaryJoin: bool)
    requires g.Valid() && |s| >= 2 && LevelOptimal(g, m, previous, |s| - 1, useBinaryJoin)
    requires forall last :: last in previous ==> last != {} && previous[last] != []
    requires s in level && PlansSound(g, m, level[s], s, useBinaryJoin) && AllOffered(g, m, previous, level, previous.Keys)
    ensures OptimalButJoins(g, m, level[s], s, useBinaryJoin)
  {
    forall last, next | last in previous && next in Neighbours(g, last) && last + {next} == s
      ensures Offer(g, m, last, Cheapest(previous[last]), next) in level[s]
    {
      assert Offered(g, m, previous[last], level, last, Neighbours(g, last));
    }
    assert OffersIn(g, m, previous, level[s], s);
    forall shape | Allowed(g, shape, useBinaryJoin) && shape.Vars() == s && !shape.Join? ensures Beats(g, m, level[s], shape) {
      OffersBeat(g, m, previous, level[s], s, shape, useBinaryJoin);
    }
  }

  // ---- binary joins ----

  /** Every finished level of the plan cache is optimal. */
  ghost predicate LevelsOptimal(g: Graph, m: Samples, planCache: seq<PlanLevel>, k: nat, useBinaryJoin: bool) {
    |planCache| >= k - 1 && forall i :: 0 <= i < k - 1 ==> LevelOptimal(g, m, planCache[i], i + 1, useBinaryJoin)
  }

  /** The second part of a split: the nodes outside the small part and the join nodes. */
  function OtherNodes(g: Graph, s: set<nat>, small: set<nat>): set<nat> {
    (s - small) + JoinNodesOf(g, small, s - small)
  }

  predicate SplitConsidered(g: Graph, s: set<nat>, small: set<nat>) {
    var joinNodes := JoinNodesOf(g, small, s - small);
    small <= s && joinNodes != {} && |joinNodes| + |s - small| < |s| - 1
  }

  lemma ConsideredSize(g: Graph, s: set<nat>, small: set<nat>)
    requires SplitConsidered(g, s, small) && |small| == SMALL_SIZE && |s| >= SMALL_SIZE + 2
    ensures AllowedSplit(g, small, OtherNodes(g, s, small)) && small + OtherNodes(g, s, small) == s
    ensures 3 <= |OtherNodes(g, s, small)| <= |s| - 2
  {
    var rest, joinNodes := s - small, JoinNodesOf(g, small, s - small);
    var other := OtherNodes(g, s, small);
    assert small + other == s && (small + other) - small == rest;
    assert s == small + rest && |s| == |small| + |rest|;
    assert |rest + joinNodes| == |rest| + |joinNodes|;
    var x :| x in joinNodes;
    assert |joinNodes| >= 1 by {
      assert {x} <= joinNodes;
    }
  }

  lemma AllowedIsConsidered(g: Graph, small: set<nat>, other: set<nat>)
    requires AllowedSplit(g, small, other)
    ensures SplitConsidered(g, small + other, small) && other == OtherNodes(g, small + other, small)
  {
  }

  /** The best cached plan of a set. */
  function BestAt(planCache: seq<PlanLevel>, s: set<nat>): Plan {
    if 1 <= |s| <= |planCache| && s in planCache[|s| - 1] && planCache[|s| - 1][s] != [] then Cheapest(planCache[|s| - 1][s]) else Plan(Scan(0), 0)
  }

  ghost predicate PlanFor(g: Graph, m: Samples, p: Plan, s: set<nat>, useBinaryJoin: bool) {
    Allowed(g, p.shape, useBinaryJoin) && p.shape.Vars() == s && p.cost == Cost(g, m, p.shape)
  }

  /** A plan of the class for the set, and no plan of the class costs less. */
  ghost predicate IsBest(g: Graph, m: Samples, p: Plan, s: set<nat>, useBinaryJoin: bool) {
    && PlanFor(g, m, p, s, useBinaryJoin)
    && forall shape :: Allowed(g, shape, useBinaryJoin) && shape.Vars() == s ==> p.cost <= Cost(g, m, shape)
  }

  /** Best by the computed costs is cheapest. */
  lemma BestIsCheapest(g: Graph, m: Samples, p: Plan, s: set<nat>, useBinaryJoin: bool)
    requires g.Valid() && IsBest(g, m, p, s, useBinaryJoin)
    ensures CheapestPlan(g, m, p, s, useBinaryJoin)
  {
    WorthIsCost(g, m, p.shape, useBinaryJoin);
    forall shape, c: nat | Allowed(g, shape, useBinaryJoin) && shape.Vars() == s && Worth(g, m, shape, c) ensures p.cost <= c {
      WorthIsCost(g, m, shape, useBinaryJoin);
    }
  }

  lemma CheapestIsBest(g: Graph, m: Samples, plans: seq<Plan>, s: set<nat>, useBinaryJoin: bool)
    requires Optimal(g, m, plans, s, useBinaryJoin)
    ensures IsBest(g, m, Cheapest(plans), s, useBinaryJoin)
  {
    forall shape | Allowed(g, shape, useBinaryJoin) && shape.Vars() == s ensures Cheapest(plans).cost <= Cost(g, m, shape) {
      CheapestOfOptimal(g, m, plans, s, useBinaryJoin, shape);
    }
  }

  /** The search's claim: the best cached plan of any connected set of a finished size is optimal in the class. */
  lemma BestAtIsBest(g: Graph, m: Samples, planCache: seq<PlanLevel>, k: nat, s: set<nat>, useBinaryJoin: bool)
    requires LevelsOptimal(g, m, planCache, k, useBinaryJoin) && g.Connected(s) && |s| < k
    ensures 1 <= |s| <= |planCache| && s in planCache[|s| - 1] && planCache[|s| - 1][s] != []
    ensures IsBest(g, m, BestAt(planCache, s), s, useBinaryJoin)
  {
    var x :| x in s;
    assert |s| >= 1 by {
      assert {x} <= s;
    }
    assert LevelOptimal(g, m, planCache[|s| - 1], |s|, useBinaryJoin);
    CheapestIsBest(g, m, planCache[|s| - 1][s], s, useBinaryJoin);
  }

  /** If the parts of a split have plans, the list has a plan at most as costly as joining their best ones. */
  ghost predicate SplitBeaten(g: Graph, m: Samples, planCache: seq<PlanLevel>, plans: seq<Plan>, s: set<nat>, small: set<nat>) {
    SplitConsidered(g, s, small) && g.Connected(OtherNodes(g, s, small)) ==>
      plans != [] && Cheapest(plans).cost <= JoinOfBest(g, m, planCache, s, small).cost
  }

  function JoinOfBest(g: Graph, m: Samples, planCache: seq<PlanLevel>, s: set<nat>, small: set<nat>): Plan {
    JoinPlan(m, small, OtherNodes(g, s, small), BestAt(planCache, small), BestAt(planCache, OtherNodes(g, s, small)))
  }

  function JoinPlan(m: Samples, small: set<nat>, other: set<nat>, a: Plan, b: Plan): Plan {
    Plan(Join(a.shape, b.shape), BinaryCost(m, small, other, a.cost, b.cost))
  }

  /** Joining the best plans of an allowed split gives a plan of the class. */
  lemma JoinPlanSound(g: Graph, m: Samples, small: set<nat>, other: set<nat>, a: Plan, b: Plan)
    requires AllowedSplit(g, small, other) && PlanFor(g, m, a, small, true) && PlanFor(g, m, b, other, true)
    ensures PlansSound(g, m, [JoinPlan(m, small, other, a, b)], small + other, true)
  {
    JoinedPlan(g, m, small, other, a, b);
    var p := JoinPlan(m, small, other, a, b);
    assert forall q :: q in [p] ==> q == p;
  }

  lemma JoinOf(g: Graph, m: Samples, a: Shape, b: Shape)
    ensures Join(a, b).Vars() == a.Vars() + b.Vars()
    ensures Cost(g, m, Join(a, b)) == BinaryCost(m, a.Vars(), b.Vars(), Cost(g, m, a), Cost(g, m, b))
    ensures Allowed(g, a, true) && Allowed(g, b, true) && AllowedSplit(g, a.Vars(), b.Vars()) ==> Allowed(g, Join(a, b), true)
  {
  }

  lemma JoinedPlan(g: Graph, m: Samples, small: set<nat>, other: set<nat>, a: Plan, b: Plan)
    requires AllowedSplit(g, small, other) && PlanFor(g, m, a, small, true) && PlanFor(g, m, b, other, true)
    ensures PlanFor(g, m, JoinPlan(m, small, other, a, b), small + other, true)
  {
    JoinOf(g, m, a.shape, b.shape);
  }

  lemma BinaryCostMonotone(m: Samples, small: set<nat>, other: set<nat>, a: nat, a': nat, b: nat, b': nat)
    requires a <= a' && b <= b'
    ensures BinaryCost(m, small, other, a, b) <= BinaryCost(m, small, other, a', b')
  {
  }

  lemma NoCheaper(g: Graph, m: Samples, best: Plan, shape: Shape)
    requires IsBest(g, m, best, shape.Vars(), true) && Allowed(g, shape, true)
    ensures best.cost <= Cost(g, m, shape)
  {
  }

  lemma JoinPlanCheapest(g: Graph, m: Samples, aBest: Plan, bBest: Plan, a: Shape, b: Shape)
    requires IsBest(g, m, aBest, a.Vars(), true) && IsBest(g, m, bBest, b.Vars(), true)
    requires Allowed(g, a, true) && Allowed(g, b, true)
    ensures JoinPlan(m, a.Vars(), b.Vars(), aBest, bBest).cost <= Cost(g, m, Join(a, b))
  {
    JoinOf(g, m, a, b);
    NoCheaper(g, m, aBest, a);
    NoCheaper(g, m, bBest, b);
    BinaryCostMonotone(m, a.Vars(), b.Vars(), aBest.cost, Cost(g, m, a), bBest.cost, Cost(g, m, b));
  }

  lemma PartsAreBest(g: Graph, m: Samples, planCache: seq<PlanLevel>, s: set<nat>, small: set<nat>)
    requires |s| >= SMALL_SIZE + 2 && LevelsOptimal(g, m, planCache, |s|, true)
    requires g.Connected(small) && |small| == SMALL_SIZE && SplitConsidered(g, s, small) && g.Connected(OtherNodes(g, s, small))
    ensures IsBest(g, m, BestAt(planCache, small), small, true)
    ensures IsBest(g, m, BestAt(planCache, OtherNodes(g, s, small)), OtherNodes(g, s, small), true)
  {
    ConsideredSize(g, s, small);
    BestAtIsBest(g, m, planCache, |s|, small, true);
    BestAtIsBest(g, m, planCache, |s|, OtherNodes(g, s, small), true);
  }

  lemma JoinOfBestSound(g: Graph, m: Samples, planCache: seq<PlanLevel>, s: set<nat>, small: set<nat>)
    requires |s| >= SMALL_SIZE + 2 && LevelsOptimal(g, m, planCache, |s|, true)
    requires g.Connected(small) && |small| == SMALL_SIZE && SplitConsidered(g, s, small) && g.Connected(OtherNodes(g, s, small))
    ensures PlansSound(g, m, [JoinOfBest(g, m, planCache, s, small)], s, true)
  {
    PartsAreBest(g, m, planCache, s, small);
    ConsideredSize(g, s, small);
    JoinPlanSound(g, m, small, OtherNodes(g, s, small), BestAt(planCache, small), BestAt(planCache, OtherNodes(g, s, small)));
  }

  lemma SplitsBeatJoin(g: Graph, m: Samples, planCache: seq<PlanLevel>, plans: seq<Plan>, s: set<nat>, a: Shape, b: Shape)
    requires g.Valid() && |s| >= SMALL_SIZE + 2 && LevelsOptimal(g, m, planCache, |s|, true)
    requires Allowed(g, Join(a, b), true) && Join(a, b).Vars() == s
    requires a.Vars() in planCache[2] ==> SplitBeaten(g, m, planCache, plans, s, a.Vars())
    ensures Beats(g, m, plans, Join(a, b))
  {
    var small, other := a.Vars(), b.Vars();
    AllowedConnected(g, a, true);
    AllowedConnected(g, b, true);
    AllowedIsConsidered(g, small, other);
    BestAtIsBest(g, m, planCache, |s|, small, true);
    PartsAreBest(g, m, planCache, s, small);
    JoinPlanCheapest(g, m, BestAt(planCache, small), BestAt(planCache, other), a, b);
  }

  /** With all splits considered, nothing of the class is cheaper. */
  lemma SplitsMakeOptimal(g: Graph, m: Samples, planCache: seq<PlanLevel>, plans: seq<Plan>, s: set<nat>)
    requires g.Valid() && |s| >= SMALL_SIZE + 2 && LevelsOptimal(g, m, planCache, |s|, true)
    requires OptimalButJoins(g, m, plans, s, true)
    requires forall small :: small in planCache[2] ==> SplitBeaten(g, m, planCache, plans, s, small)
    ensures Optimal(g, m, plans, s, true)
  {
    forall shape | Allowed(g, shape, true) && shape.Vars() == s ensures Beats(g, m, plans, shape) {
      if shape.Join? {
        SplitsBeatJoin(g, m, planCache, plans, s, shape.small, shape.other);
      }
    }
  }

  class PlanGenerator {
    const graph: Graph
    const joinNodes: seq<nat>
    const samples: Samples
    var planCache: seq<PlanLevel>
    var cardCache: seq<CardLevel>
    var averages: AverageCache

    constructor (graph: Graph, joinNodes: seq<nat>, samples: Samples)
      ensures this.graph == graph && this.joinNodes == joinNodes && this.samples == samples
      ensures planCache == [] && cardCache == [] && averages == map[]
    {
      this.graph, this.joinNodes, this.samples := graph, joinNodes, samples;
      planCache, cardCache, averages := [], [], map[];
    }

    ghost predicate Estimates()
      reads this
    {
      EstimatesOk(samples, cardCache, averages)
    }

    method InsertEdgeSelectivityToCache(from: nat, to: nat)
      modifies this`averages
      ensures averages == AveragesWith(samples, old(averages), from, to)
    {
      if (from, to) !in averages {
        averages := averages[(from, to) := samples.Average(from, to)];
      }
    }

    method InsertCardEstimationToCache(now: set<nat>, card: nat)
      requires |now| >= 2 && |cardCache| >= |now| - 2
      modifies this`cardCache
      ensures cardCache == CardsWith(old(cardCache), now, card)
    {
      if |cardCache| < |now| - 1 {
        cardCache := cardCache + [map[now := card]];
      } else if now !in cardCache[|now| - 2] {
        var level: CardLevel := cardCache[|now| - 2][now := card];
        cardCache := cardCache[|now| - 2 := level];
      }
    }

    /** The size of a pair: the first call samples both directions, starting at the variable with fewer ids. */
    method CardEstimatorTwoNodes(lastNode: nat, nextNode: nat) returns (size: nat)
      requires Estimates() && lastNode != nextNode
      modifies this`cardCache, this`averages
      ensures |{lastNode, nextNode}| == 2
      ensures Estimates() && size == samples.TwoNodesSize(lastNode, nextNode)
      ensures StepSize(graph, samples, {lastNode}, nextNode, size)
      ensures cardCache == CardsWith(old(cardCache), {lastNode, nextNode}, samples.Card({lastNode, nextNode}))
      ensures (lastNode, nextNode) in averages && (nextNode, lastNode) in averages
    {
      var now := {lastNode, nextNode};
      assert |now| == 2;
      PairSizeIs(graph, samples, lastNode, nextNode);
      if |cardCache| == 0 || now !in cardCache[0] {
        var last, next, changed := lastNode, nextNode, false;
        if samples.varNum(last) > samples.varNum(next) {
          last, next, changed := next, last, true;
        }
        assert now == {last, next};
        PairAveragesOk(samples, cardCache, averages, last, next);
        InsertEdgeSelectivityToCache(last, next);
        InsertEdgeSelectivityToCache(next, last);
        InsertCardEstimationToCache(now, samples.Card(now));
        if changed {
          size := samples.product(samples.varNum(next), averages[(next, last)]);
        } else {
          size := samples.product(samples.varNum(last), averages[(last, next)]);
        }
      } else {
        assert {nextNode, lastNode} == now;
        size := samples.product(samples.varNum(lastNode), averages[(lastNode, nextNode)]);
      }
    }

    method LinkedNeiId(last: set<nat>, next: nat) returns (linked: seq<nat>)
      requires next in graph.nei
      ensures linked == LinkedNeighbours(graph, last, next)
    {
      linked := [];
      var i := 0;
      while i < |graph.nei[next]|
        invariant 0 <= i <= |graph.nei[next]|
        invariant linked == Keep(graph.nei[next][..i], last)
      {
        KeepSnoc(graph.nei[next][..i], graph.nei[next][i], last);
        assert graph.nei[next][..i + 1] == graph.nei[next][..i] + [graph.nei[next][i]];
        if graph.nei[next][i] in last {
          linked := linked + [graph.nei[next][i]];
        }
        i := i + 1;
      }
      assert graph.nei[next][..i] == graph.nei[next];
    }

    /** The least average number of partners over the edges into the plan. */
    method LeastAverage(linked: seq<nat>, next: nat) returns (multiple: real)
      requires linked != [] && forall x :: x in linked ==> (x, next) in averages
      requires AveragesOk(samples, averages)
      ensures multiple == MinAverage(samples, linked, next)
      ensures exists x :: x in linked && multiple == samples.Average(x, next)
      ensures forall x :: x in linked ==> multiple <= samples.Average(x, next)
    {
      MinAverageLeast(samples, linked, next);
      multiple := averages[(linked[0], next)];
      var i := 0;
      while i < |linked|
        invariant 0 <= i <= |linked|
        invariant multiple == MinAverage(samples, if i == 0 then linked[..1] else linked[..i], next)
      {
        assert linked[i] in linked;
        assert linked[..i + 1][..i] == linked[..i];
        if averages[(linked[i], next)] < multiple {
          multiple := averages[(linked[i], next)];
        }
        i := i + 1;
      }
      assert linked[..i] == linked;
    }

    /** The size after a node is joined to a plan of two or more nodes; it is the same whether or not the new set was sampled before. */
    method CardEstimatorMoreThanThreeNodes(last: set<nat>, next: nat) returns (size: nat)
      requires Estimates() && next in graph.nei && next !in last && |last| >= 2 && Cached(cardCache, last)
      requires LinkedNeighbours(graph, last, next) != []
      requires forall x :: x in LinkedNeighbours(graph, last, next) ==> {x, next} in cardCache[0]
      modifies this`cardCache
      ensures Estimates() && size == samples.WcoSize(graph, last, next)
      ensures StepSize(graph, samples, last, next, size)
      ensures cardCache == CardsWith(old(cardCache), last + {next}, samples.Card(last + {next}))
    {
      var now := last + {next};
      assert |now| == |last| + 1;
      assert CardsOk(samples, cardCache[|last| - 2], |last|);
      var lastCard := cardCache[|last| - 2][last];
      if !Cached(cardCache, now) {
        LargerCardOk(samples, cardCache, averages, now);
        InsertCardEstimationToCache(now, samples.Card(now));
      }
      var linked := LinkedNeiId(last, next);
      forall x | x in linked ensures (x, next) in averages {
        assert {x, next} in old(cardCache)[0] && x != next;
      }
      var multiple := LeastAverage(linked, next);
      size := samples.product(lastCard, multiple);
      StepSizeIs(graph, samples, last, next, size);
    }

    method CardEstimator(last: set<nat>, next: nat) returns (size: nat)
      requires Estimates() && graph.Valid() && graph.Connected(last) && next in Neighbours(graph, last)
      requires CardLevelsComplete(graph, cardCache, |last| + 1)
      modifies this`cardCache, this`averages
      ensures Estimates() && |last + {next}| == |last| + 1 && size == samples.WcoSize(graph, last, next)
      ensures StepSize(graph, samples, last, next, size)
      ensures cardCache == CardsWith(old(cardCache), last + {next}, samples.Card(last + {next}))
    {
      NextConnected(graph, last, next);
      if |last| == 1 {
        var lastNode := TheOne(last);
        assert last + {next} == {lastNode, next};
        size := CardEstimatorTwoNodes(lastNode, next);
      } else {
        LinkedArePairs(graph, last, next);
        assert Complete(graph, cardCache[0].Keys, 2) && Complete(graph, cardCache[|last| - 2].Keys, |last|);
        size := CardEstimatorMoreThanThreeNodes(last, next);
      }
    }

    method InsertThisPlanToCache(plan: Plan, now: set<nat>, varNum: nat, ghost before: seq<PlanLevel>, ghost level: PlanLevel)
      requires varNum >= 1 && |before| == varNum - 1 && planCache == Opened(before, level)
      modifies this`planCache
      ensures planCache == Opened(before, LevelWith(level, now, plan))
    {
      assert now in LevelWith(level, now, plan).Keys;
      if |planCache| < varNum {
        assert LevelWith(level, now, plan) == map[now := [plan]];
        planCache := planCache + [map[now := [plan]]];
      } else {
        var current: PlanLevel := planCache[varNum - 1];
        assert current == level;
        if now !in current {
          assert LevelWith(level, now, plan) == current[now := [plan]];
          planCache := planCache[varNum - 1 := current[now := [plan]]];
        } else {
          planCache := planCache[varNum - 1 := current[now := current[now] + [plan]]];
        }
      }
    }

    /** The first of the cheapest plans of a set. */
    method GetBestPlan(plans: seq<Plan>) returns (best: Plan)
      requires plans != []
      ensures best == Cheapest(plans)
    {
      best := plans[0];
      var i := 1;
      while i < |plans|
        invariant 1 <= i <= |plans|
        invariant best == Cheapest(plans[..i])
      {
        assert plans[..i + 1][..i] == plans[..i];
        if plans[i].cost < best.cost {
          best := plans[i];
        }
        i := i + 1;
      }
      assert plans[..i] == plans;
    }

    /** The nodes that can be joined next, found over the edge lists of the plan's nodes. */
    method GetNeiBySubPlanNodes(last: set<nat>) returns (nei: set<nat>)
      requires graph.Valid() && last <= graph.nodes && graph.nodes == set v | v in joinNodes
      ensures nei == Neighbours(graph, last)
    {
      nei := {};
      var todo := last;
      while todo != {}
        invariant todo <= last
        invariant nei == NeighboursOver(graph, last, last - todo)
        decreases todo
      {
        var node :| node in todo;
        var i := 0;
        ghost var before := nei;
        while i < |graph.nei[node]|
          invariant 0 <= i <= |graph.nei[node]|
          invariant nei == before + (set v | v in graph.nei[node][..i] && v in graph.nodes && v !in last)
        {
          assert graph.nei[node][..i + 1] == graph.nei[node][..i] + [graph.nei[node][i]];
          if graph.nei[node][i] in joinNodes && graph.nei[node][i] !in last {
            nei := nei + {graph.nei[node][i]};
          }
          i := i + 1;
        }
        assert graph.nei[node][..i] == graph.nei[node];
        MoreNeighbours(graph, last, last - todo, node);
        todo := todo - {node};
      }
      assert last - todo == last;
    }

    /** One candidate plan: the node on top of the best plan or, for two nodes, the pair if it is cheaper. */
    method MakeOffer(last: set<nat>, best: Plan, next: nat, varNum: nat) returns (plan: Plan)
      requires graph.Valid() && graph.Connected(last) && next in Neighbours(graph, last) && varNum == |last| + 1
      requires Estimates() && CardLevelsComplete(graph, cardCache, varNum)
      modifies this`cardCache, this`averages
      ensures Estimates() && |last + {next}| == varNum && plan == Offer(graph, samples, last, best, next)
      ensures cardCache == CardsWith(old(cardCache), last + {next}, samples.Card(last + {next}))
    {
      var size := CardEstimator(last, next);
      plan := Plan(Extend(best.shape, next), best.cost + size);
      if varNum == 2 {
        var first := TheOne(last);
        var pairCost := samples.P2soCost(first, next);
        if pairCost < plan.cost {
          plan := Plan(P2so(first, next), pairCost);
        }
      }
    }

    method OfferExtension(last: set<nat>, best: Plan, next: nat, varNum: nat, ghost search: Search) returns (ghost after: Search)
      requires graph.Valid() && graph.Connected(last) && next in Neighbours(graph, last) && varNum == |last| + 1
      requires Estimates() && search.At(planCache, cardCache) && search.Fits(graph, varNum)
      modifies this`planCache, this`cardCache, this`averages
      ensures Estimates() && after.At(planCache, cardCache)
      ensures after == search.With(samples, last + {next}, Offer(graph, samples, last, best, next))
    {
      search.CompleteBefore(graph, varNum, planCache, cardCache);
      var plan := MakeOffer(last, best, next, varNum);
      after := search.With(samples, last + {next}, plan);
      InsertThisPlanToCache(plan, last + {next}, varNum, search.plansBefore, search.level);
      search.CardsOpened(samples, last + {next}, varNum);
    }

    /** All candidates on top of one set. */
    method ExtendPlans(last: set<nat>, plans: seq<Plan>, varNum: nat, ghost search: Search, ghost useBinaryJoin: bool) returns (ghost after: Search)
      requires graph.Valid() && graph.Connected(last) && varNum == |last| + 1 && graph.nodes == set v | v in joinNodes
      requires PlansSound(graph, samples, plans, last, useBinaryJoin)
      requires Estimates() && search.At(planCache, cardCache) && search.Fits(graph, varNum)
      requires LevelSound(graph, samples, search.level, varNum, useBinaryJoin)
      modifies this`planCache, this`cardCache, this`averages
      ensures Estimates() && after.At(planCache, cardCache) && after.Fits(graph, varNum)
      ensures LevelSound(graph, samples, after.level, varNum, useBinaryJoin)
      ensures Offered(graph, samples, plans, after.level, last, Neighbours(graph, last))
      ensures Grown(search, after)
    {
      after := search;
      var nei := GetNeiBySubPlanNodes(last);
      var best := GetBestPlan(plans);
      var todo := nei;
      while todo != {}
        invariant todo <= nei
        invariant Estimates() && after.At(planCache, cardCache) && after.Fits(graph, varNum)
        invariant LevelSound(graph, samples, after.level, varNum, useBinaryJoin)
        invariant Offered(graph, samples, plans, after.level, last, nei - todo)
        invariant Grown(search, after)
        decreases todo
      {
        var next :| next in todo;
        ghost var before := after;
        after := OfferExtension(last, best, next, varNum, after);
        OfferTaken(graph, samples, plans, last, next, nei - todo, varNum, search, before, after, useBinaryJoin);
        TodoShrinks(nei, todo, next);
        todo := todo - {next};
      }
      assert nei - todo == nei;
    }

    /** Round of extensions: every set of the previous size, extended by every neighbour. */
    method Considerwcojoin(varNum: nat, ghost useBinaryJoin: bool, ghost largest: set<nat>)
      requires graph.Valid() && graph.nodes == (set v | v in joinNodes) && varNum >= 2
      requires |planCache| == varNum - 1 && |cardCache| == varNum - 2 && Estimates()
      requires LevelOptimal(graph, samples, planCache[varNum - 2], varNum - 1, useBinaryJoin)
      requires CardLevelsComplete(graph, cardCache, varNum)
      requires graph.Connected(largest) && |largest| == varNum
      modifies this`planCache, this`cardCache, this`averages
      ensures Estimates() && |planCache| == varNum && planCache[..varNum - 1] == old(planCache)
      ensures LevelOptimalButJoins(graph, samples, planCache[varNum - 1], varNum, useBinaryJoin)
      ensures |cardCache| == varNum - 1 && CardLevelsComplete(graph, cardCache, varNum + 1)
    {
      var previous := planCache[varNum - 2];
      LevelShape(graph, samples, previous, varNum - 1, useBinaryJoin);
      ghost var search := Search(planCache, map[], cardCache, map[]);
      var todo := previous.Keys;
      while todo != {}
        invariant todo <= previous.Keys
        invariant Estimates() && search.At(planCache, cardCache) && search.Fits(graph, varNum)
        invariant search.plansBefore == old(planCache) && search.cardsBefore == old(cardCache)
        invariant LevelSound(graph, samples, search.level, varNum, useBinaryJoin)
        invariant AllOffered(graph, samples, previous, search.level, previous.Keys - todo)
        decreases todo
      {
        var last :| last in todo;
        assert Optimal(graph, samples, previous[last], last, useBinaryJoin);
        ghost var before := search;
        search := ExtendPlans(last, previous[last], varNum, search, useBinaryJoin);
        AllOfferedMore(graph, samples, previous, before, search, previous.Keys - todo, last);
        TodoShrinks(previous.Keys, todo, last);
        todo := todo - {last};
      }
      assert previous.Keys - todo == previous.Keys;
      OffersMakeLevel(graph, samples, previous, search.level, varNum, useBinaryJoin);
      RoundFinished(graph, search, planCache, cardCache, varNum, largest);
    }

    /** The nodes of a plan that have an edge into the other nodes. */
    method GetJoinNodes(planNodes: set<nat>, otherNodes: set<nat>) returns (shared: set<nat>)
      requires graph.Valid() && otherNodes <= graph.nodes
      ensures shared == JoinNodesOf(graph, planNodes, otherNodes)
    {
      shared := {};
      var todo := otherNodes;
      while todo != {}
        invariant todo <= otherNodes && shared == JoinNodesOf(graph, planNodes, otherNodes - todo)
        decreases todo
      {
        var node :| node in todo;
        var i := 0;
        ghost var before := shared;
        while i < |graph.nei[node]|
          invariant 0 <= i <= |graph.nei[node]|
          invariant shared == before + (set v | v in graph.nei[node][..i] && v in planNodes)
        {
          assert graph.nei[node][..i + 1] == graph.nei[node][..i] + [graph.nei[node][i]];
          if graph.nei[node][i] in planNodes {
            shared := shared + {graph.nei[node][i]};
          }
          i := i + 1;
        }
        assert graph.nei[node][..i] == graph.nei[node];
        MoreJoinNodes(graph, planNodes, otherNodes - todo, node);
        TodoShrinks(otherNodes, todo, node);
        todo := todo - {node};
      }
      assert otherNodes - todo == otherNodes;
    }

    function GetCard(nodes: set<nat>): (card: nat)
      requires |nodes| >= 2 && Cached(cardCache, nodes)
      reads this
    {
      cardCache[|nodes| - 2][nodes]
    }

    function CostModelForBinary(aNodes: set<nat>, bNodes: set<nat>, a: Plan, b: Plan): nat
      requires |aNodes| >= 2 && Cached(cardCache, aNodes) && |bNodes| >= 2 && Cached(cardCache, bNodes)
      reads this
    {
      var lo, hi := if GetCard(aNodes) <= GetCard(bNodes) then GetCard(aNodes) else GetCard(bNodes),
                    if GetCard(aNodes) <= GetCard(bNodes) then GetCard(bNodes) else GetCard(aNodes);
      lo + 2 * hi + a.cost + b.cost
    }

    /** Tries one small part: if the other part has plans and the join is cheaper than everything so far, it is added. */
    method TrySplit(s: set<nat>, small: set<nat>, plans: seq<Plan>, smallest: nat) returns (more: seq<Plan>, least: nat)
      requires graph.Valid() && Estimates() && |s| >= SMALL_SIZE + 2 && graph.Connected(s)
      requires LevelsOptimal(graph, samples, planCache, |s|, true) && CardLevelsComplete(graph, cardCache, |s|)
      requires small in planCache[2] && PlansSound(graph, samples, plans, s, true) && smallest == Cheapest(plans).cost
      ensures PlansSound(graph, samples, more, s, true) && plans <= more && least == Cheapest(more).cost
      ensures SplitBeaten(graph, samples, planCache, more, s, small)
    {
      more, least := plans, smallest;
      if small <= s {
        var otherNodes := s - small;
        var shared := GetJoinNodes(small, otherNodes);
        if |shared| >= 1 && |shared| + |otherNodes| < |s| - 1 {
          assert shared != {};
          otherNodes := otherNodes + shared;
          more, least := TryParts(s, small, otherNodes, plans, smallest);
        }
      }
    }

    method TryParts(ghost s: set<nat>, small: set<nat>, otherNodes: set<nat>, plans: seq<Plan>, smallest: nat) returns (more: seq<Plan>, least: nat)
      requires Estimates() && |s| >= SMALL_SIZE + 2
      requires LevelsOptimal(graph, samples, planCache, |s|, true) && CardLevelsComplete(graph, cardCache, |s|)
      requires small in planCache[2] && PlansSound(graph, samples, plans, s, true) && smallest == Cheapest(plans).cost
      requires SplitConsidered(graph, s, small) && otherNodes == OtherNodes(graph, s, small)
      ensures PlansSound(graph, samples, more, s, true) && plans <= more && least == Cheapest(more).cost
      ensures SplitBeaten(graph, samples, planCache, more, s, small)
    {
      more, least := plans, smallest;
      SmallConnected(graph, samples, planCache, small, |s|);
      ConsideredSize(graph, s, small);
      if otherNodes !in planCache[|otherNodes| - 1] {
        PartMissing(graph, samples, planCache, otherNodes, |s|);
        return;
      }
      PartsReady(graph, samples, planCache, s, small, otherNodes);
      var plan := JoinBest(small, otherNodes, planCache[2][small], planCache[|otherNodes| - 1][otherNodes], |s|);
      if plan.cost < smallest {
        more, least := AddCheaper(s, plans, plan);
      }
    }

    /** The join of the best plans of both parts. */
    method JoinBest(small: set<nat>, otherNodes: set<nat>, smallPlans: seq<Plan>, otherPlans: seq<Plan>, ghost k: nat) returns (plan: Plan)
      requires Estimates() && CardLevelsComplete(graph, cardCache, k) && smallPlans != [] && otherPlans != []
      requires graph.Connected(small) && graph.Connected(otherNodes) && 2 <= |small| < k && 2 <= |otherNodes| < k
      ensures plan == JoinPlan(samples, small, otherNodes, Cheapest(smallPlans), Cheapest(otherPlans))
    {
      var best := GetBestPlan(smallPlans);
      var otherBest := GetBestPlan(otherPlans);
      PartsHaveCards(graph, samples, cardCache, small, otherNodes, k);
      plan := Plan(Join(best.shape, otherBest.shape), CostModelForBinary(small, otherNodes, best, otherBest));
    }

    method AddCheaper(ghost s: set<nat>, plans: seq<Plan>, plan: Plan) returns (more: seq<Plan>, least: nat)
      requires PlansSound(graph, samples, plans, s, true) && PlansSound(graph, samples, [plan], s, true)
      requires plan.cost < Cheapest(plans).cost
      ensures PlansSound(graph, samples, more, s, true) && plans <= more && least == Cheapest(more).cost == plan.cost && plan in more
    {
      more, least := plans + [plan], plan.cost;
      assert (plans + [plan])[..|plans|] == plans && plan in [plan];
    }

    /** All binary joins of one set, cheapest so far first kept as the bound for the next. */
    method JoinsOfSet(s: set<nat>, plans: seq<Plan>) returns (more: seq<Plan>)
      requires graph.Valid() && Estimates() && |s| >= SMALL_SIZE + 2 && graph.Connected(s)
      requires LevelsOptimal(graph, samples, planCache, |s|, true) && CardLevelsComplete(graph, cardCache, |s|)
      requires OptimalButJoins(graph, samples, plans, s, true)
      ensures Optimal(graph, samples, more, s, true)
    {
      more := plans;
      var best := GetBestPlan(plans);
      var smallest := best.cost;
      var todo := planCache[2].Keys;
      while todo != {}
        invariant todo <= planCache[2].Keys
        invariant PlansSound(graph, samples, more, s, true) && plans <= more && smallest == Cheapest(more).cost
        invariant SplitsBeaten(graph, samples, planCache, more, s, planCache[2].Keys - todo)
        decreases todo
      {
        var small :| small in todo;
        ghost var before := more;
        more, smallest := TrySplit(s, small, more, smallest);
        SplitsStayBeaten(graph, samples, planCache, before, more, s, planCache[2].Keys - todo, small);
        TodoShrinks(planCache[2].Keys, todo, small);
        todo := todo - {small};
      }
      assert planCache[2].Keys - todo == planCache[2].Keys;
      StillOptimalButJoins(graph, samples, plans, more, s);
      AllSplitsMakeOptimal(graph, samples, planCache, more, s);
    }

    /** Round of binary joins over the sets of one size, for small parts of three nodes. */
    method Considerbinaryjoin(varNum: nat)
      requires graph.Valid() && Estimates() && varNum >= SMALL_SIZE + 2 && |planCache| == varNum
      requires LevelsOptimal(graph, samples, planCache, varNum, true) && CardLevelsComplete(graph, cardCache, varNum)
      requires LevelOptimalButJoins(graph, samples, planCache[varNum - 1], varNum, true)
      modifies this`planCache
      ensures |planCache| == varNum && LevelsOptimal(graph, samples, planCache, varNum + 1, true)
    {
      var minSize := SMALL_SIZE;
      var maxSize := if minSize <= varNum - 2 then minSize else varNum - 2;
      assert minSize == maxSize;
      var before := planCache;
      var level := planCache[varNum - 1];
      var todo := level.Keys;
      var joined: PlanLevel := map[];
      while todo != {}
        invariant todo <= level.Keys && joined.Keys == level.Keys - todo
        invariant forall s :: s in joined ==> Optimal(graph, samples, joined[s], s, true)
        invariant planCache == before
        decreases todo
      {
        var s :| s in todo;
        var plans := JoinsOfSet(s, level[s]);
        joined := joined[s := plans];
        TodoShrinks(level.Keys, todo, s);
        todo := todo - {s};
      }
      planCache := before[varNum - 1 := joined];
      assert joined.Keys == level.Keys;
      LevelFinished(graph, samples, before, planCache, varNum, true);
    }

    /** One scan plan per variable. */
    method Considervarscan()
      requires graph.nodes == (set v | v in joinNodes) && joinNodes != [] && planCache == []
      modifies this`planCache
      ensures |planCache| == 1 && LevelOptimal(graph, samples, planCache[0], 1, false) && LevelOptimal(graph, samples, planCache[0], 1, true)
    {
      var i := 0;
      while i < |joinNodes|
        invariant 0 <= i <= |joinNodes| && Scanned(samples, joinNodes[..i], planCache)
      {
        var v := joinNodes[i];
        ScannedNext(samples, joinNodes[..i], v, planCache);
        assert joinNodes[..i + 1] == joinNodes[..i] + [v];
        var scan := [Plan(Scan(v), samples.ScanCost(v))];
        if |planCache| < 1 {
          planCache := planCache + [map[{v} := scan]];
        } else {
          planCache := planCache[0 := planCache[0][{v} := scan]];
        }
        i := i + 1;
      }
      assert joinNodes[..i] == joinNodes;
      ScansOptimal(graph, samples, joinNodes, planCache[0], false);
      ScansOptimal(graph, samples, joinNodes, planCache[0], true);
    }

    /** The cheapest plan over all sets of a size. */
    method GetBestPlanByNum(level: PlanLevel) returns (best: Plan, ghost from: set<nat>)
      requires level.Keys != {} && AllHavePlans(level)
      ensures from in level && best == Cheapest(level[from])
      ensures forall s :: s in level ==> best.cost <= Cheapest(level[s]).cost
    {
      var first :| first in level;
      best := GetBestPlan(level[first]);
      from := first;
      var todo := level.Keys - {first};
      while todo != {}
        invariant todo <= level.Keys
        invariant from in level && best == Cheapest(level[from])
        invariant forall s :: s in level && s !in todo ==> best.cost <= Cheapest(level[s]).cost
        decreases todo
      {
        var s :| s in todo;
        var other := GetBestPlan(level[s]);
        if other.cost < best.cost {
          best, from := other, s;
        }
        todo := todo - {s};
      }
    }

    /** One round: extensions and, from five variables on and where wanted, binary joins. */
    method Round(varNum: nat, useBinaryJoin: bool, ghost largest: set<nat>)
      requires graph.Valid() && graph.nodes == (set v | v in joinNodes) && varNum >= 2
      requires |planCache| == varNum - 1 && |cardCache| == varNum - 2 && Estimates()
      requires LevelsOptimal(graph, samples, planCache, varNum, useBinaryJoin) && CardLevelsComplete(graph, cardCache, varNum)
      requires graph.Connected(largest) && |largest| == varNum
      modifies this`planCache, this`cardCache, this`averages
      ensures Estimates() && |planCache| == varNum && LevelsOptimal(graph, samples, planCache, varNum + 1, useBinaryJoin)
      ensures |cardCache| == varNum - 1 && CardLevelsComplete(graph, cardCache, varNum + 1)
    {
      assert LevelOptimal(graph, samples, planCache[varNum - 2], varNum - 1, useBinaryJoin);
      ghost var before := planCache;
      Considerwcojoin(varNum, useBinaryJoin, largest);
      KeptLevels(graph, samples, before, planCache, varNum, useBinaryJoin);
      if useBinaryJoin && varNum >= 5 {
        FewerCards(graph, cardCache, varNum);
        Considerbinaryjoin(varNum);
      } else {
        NoJoinsInLevel(graph, samples, planCache[varNum - 1], varNum, useBinaryJoin);
        LevelFinished(graph, samples, planCache, planCache, varNum, useBinaryJoin);
      }
    }

    /** All rounds, from scans up to the full set. */
    method FillCaches(useBinaryJoin: bool)
      requires graph.Valid() && graph.nodes == (set v | v in joinNodes) && |joinNodes| == |graph.nodes| >= 2
      requires graph.Connected(graph.nodes)
      requires planCache == [] && cardCache == [] && averages == map[]
      modifies this
      ensures Finished(useBinaryJoin)
    {
      Considervarscan();
      var varNum := 2;
      FirstLevel(graph, samples, planCache, useBinaryJoin);
      while varNum <= |joinNodes|
        invariant 2 <= varNum <= |joinNodes| + 1
        invariant Estimates() && |planCache| == varNum - 1 && |cardCache| == varNum - 2
        invariant LevelsOptimal(graph, samples, planCache, varNum, useBinaryJoin) && CardLevelsComplete(graph, cardCache, varNum)
      {
        ghost var part := ConnectedOfSize(graph, graph.nodes, varNum);
        Round(varNum, useBinaryJoin, part);
        varNum := varNum + 1;
      }
    }

    /**
     The caches hold exactly the connected sets of every size, with optimal plans; sizes are cached for
     the same sets from two nodes on.
     */
    ghost predicate Finished(useBinaryJoin: bool)
      reads this
    {
      && Estimates() && |planCache| == |graph.nodes| && LevelsOptimal(graph, samples, planCache, |graph.nodes| + 1, useBinaryJoin)
      && |cardCache| == |graph.nodes| - 1 && CardLevelsComplete(graph, cardCache, |graph.nodes| + 1)
    }

    /**
     The best plan for the whole query and the estimates that go with it. The search never reaches its
     error exit, and the plan is optimal in its class.
     */
    method GetPlan(useBinaryJoin: bool) returns (ok: bool, best: Plan, resSize: nat, cost: nat)
      requires graph.Valid() && graph.nodes == (set v | v in joinNodes) && |joinNodes| == |graph.nodes| >= 2
      requires graph.Connected(graph.nodes)
      requires planCache == [] && cardCache == [] && averages == map[]
      modifies this
      ensures Finished(useBinaryJoin)
      ensures ok && CheapestPlan(graph, samples, best, graph.nodes, useBinaryJoin)
      ensures cost == best.cost && SetSize(samples, graph.nodes, resSize)
    {
      FillCaches(useBinaryJoin);
      FullLevelBest(graph, samples, planCache, useBinaryJoin);
      best := BestForAll(planCache[|graph.nodes| - 1], useBinaryJoin);
      BestIsCheapest(graph, samples, best, graph.nodes, useBinaryJoin);
      ok, resSize := SizeForAll();
      cost := best.cost;
    }

    /** The cheapest plan of the last level, whose only key is the whole query. */
    method BestForAll(level: PlanLevel, ghost useBinaryJoin: bool) returns (best: Plan)
      requires FullLevel(graph, samples, level, useBinaryJoin)
      ensures IsBest(graph, samples, best, graph.nodes, useBinaryJoin)
    {
      ghost var from;
      best, from := GetBestPlanByNum(level);
      assert from == graph.nodes;
    }

    method SizeForAll() returns (ok: bool, resSize: nat)
      requires |joinNodes| == |graph.nodes| >= 2 && graph.Connected(graph.nodes)
      requires Estimates() && |cardCache| == |graph.nodes| - 1 && CardLevelsComplete(graph, cardCache, |graph.nodes| + 1)
      ensures ok && resSize == samples.Card(graph.nodes)
    {
      OnlyFullCards(graph, cardCache);
      assert CardsOk(samples, cardCache[|graph.nodes| - 2], |graph.nodes|);
      ok, resSize := ReadResultSize(cardCache[|graph.nodes| - 2]);
    }

    /** The size of the one entry of the last level; a second entry is the search's error exit. */
    method ReadResultSize(cards: CardLevel) returns (ok: bool, resSize: nat)
      requires cards.Keys == {graph.nodes}
      ensures ok && resSize == cards[graph.nodes]
    {
      ok, resSize := true, 0;
      var index := 1;
      var todo := cards.Keys;
      while todo != {}
        invariant todo == (if index == 1 then {graph.nodes} else {})
        invariant ok && 0 <= index <= 1 && (index == 0 ==> resSize == cards[graph.nodes])
        decreases todo
      {
        var nodes :| nodes in todo;
        if index == 0 {
          ok := false;
          return;
        }
        resSize := cards[nodes];
        index := index - 1;
        todo := todo - {nodes};
      }
    }
  }

  ghost predicate AllHavePlans(level: PlanLevel) {
    forall s :: s in level ==> level[s] != []
  }

  ghost predicate ScansOnly(m: Samples, level: PlanLevel) {
    forall v :: {v} in level ==> level[{v}] == [Plan(Scan(v), m.ScanCost(v))]
  }

  function SetsOf(nodes: seq<nat>): set<set<nat>> {
    set v | v in nodes :: {v}
  }

  /** The cache after the scans of some nodes: nothing, or one level with their scans. */
  ghost predicate Scanned(m: Samples, nodes: seq<nat>, planCache: seq<PlanLevel>) {
    if nodes == [] then planCache == [] else |planCache| == 1 && planCache[0].Keys == SetsOf(nodes) && ScansOnly(m, planCache[0])
  }

  lemma OneMoreSet(nodes: seq<nat>, v: nat)
    ensures SetsOf(nodes + [v]) == SetsOf(nodes) + {{v}}
  {
    forall s | s in SetsOf(nodes) + {{v}} ensures s in SetsOf(nodes + [v]) {
      var u :| (u in nodes || u == v) && s == {u};
      assert u in nodes + [v];
    }
  }

  lemma ScannedNext(m: Samples, nodes: seq<nat>, v: nat, planCache: seq<PlanLevel>)
    requires Scanned(m, nodes, planCache)
    ensures var scan := [Plan(Scan(v), m.ScanCost(v))];
            Scanned(m, nodes + [v], if |planCache| < 1 then planCache + [map[{v} := scan]] else planCache[0 := planCache[0][{v} := scan]])
  {
    var level: PlanLevel := if |planCache| < 1 then map[] else planCache[0];
    OneMoreSet(nodes, v);
    assert level.Keys == SetsOf(nodes);
    OneMoreScan(m, level, v);
  }

  lemma OneMoreScan(m: Samples, level: PlanLevel, v: nat)
    requires ScansOnly(m, level)
    ensures ScansOnly(m, level[{v} := [Plan(Scan(v), m.ScanCost(v))]])
    ensures level[{v} := [Plan(Scan(v), m.ScanCost(v))]].Keys == level.Keys + {{v}}
  {
    forall u | {u} == {v} ensures u == v {
      assert u in {v};
    }
  }

  lemma LargerShapes(g: Graph, shape: Shape, useBinaryJoin: bool)
    requires Allowed(g, shape, useBinaryJoin) && !shape.Scan?
    ensures |shape.Vars()| >= 2
  {
    match shape
    case Extend(sub, v) =>
      VarsNonEmpty(sub);
      assert |sub.Vars() + {v}| == |sub.Vars()| + 1;
    case P2so(a, b) => assert |{a} + {b}| == 2 && {a} + {b} == {a, b};
    case Join(_, _) =>
  }

  lemma SmallShapes(g: Graph, shape: Shape, useBinaryJoin: bool, v: nat)
    requires Allowed(g, shape, useBinaryJoin) && shape.Vars() == {v}
    ensures shape == Scan(v)
  {
    if shape.Scan? {
      assert shape.v in shape.Vars();
    } else {
      LargerShapes(g, shape, useBinaryJoin);
    }
  }

  lemma ScansOptimal(g: Graph, m: Samples, joinNodes: seq<nat>, level: PlanLevel, useBinaryJoin: bool)
    requires g.nodes == (set v | v in joinNodes) && level.Keys == SetsOf(joinNodes) && ScansOnly(m, level)
    ensures LevelOptimal(g, m, level, 1, useBinaryJoin)
  {
    forall s | g.Connected(s) && |s| == 1 ensures s in level {
      var v := TheOne(s);
      assert v in joinNodes;
    }
    forall s | s in level ensures g.Connected(s) && |s| == 1 && Optimal(g, m, level[s], s, useBinaryJoin) {
      var v :| v in joinNodes && s == {v};
      SingleConnected(g, v);
      forall shape | Allowed(g, shape, useBinaryJoin) && shape.Vars() == s ensures Beats(g, m, level[s], shape) {
        SmallShapes(g, shape, useBinaryJoin, v);
        assert level[s][0] in level[s];
      }
    }
  }

  lemma KeptLevels(g: Graph, m: Samples, before: seq<PlanLevel>, after: seq<PlanLevel>, k: nat, useBinaryJoin: bool)
    requires k >= 1 && |before| == k - 1 && |after| == k && after[..k - 1] == before && LevelsOptimal(g, m, before, k, useBinaryJoin)
    ensures LevelsOptimal(g, m, after, k, useBinaryJoin)
  {
    forall i | 0 <= i < k - 1 ensures LevelOptimal(g, m, after[i], i + 1, useBinaryJoin) {
      assert after[i] == before[i];
      assert LevelOptimal(g, m, before[i], i + 1, useBinaryJoin);
    }
  }

  lemma FewerCards(g: Graph, cardCache: seq<CardLevel>, k: nat)
    requires CardLevelsComplete(g, cardCache, k + 1)
    ensures CardLevelsComplete(g, cardCache, k)
  {
  }

  lemma NoJoinsInLevel(g: Graph, m: Samples, level: PlanLevel, k: nat, useBinaryJoin: bool)
    requires LevelOptimalButJoins(g, m, level, k, useBinaryJoin) && (!useBinaryJoin || k < 5)
    ensures LevelOptimal(g, m, level, k, useBinaryJoin)
  {
    forall s | s in level ensures Optimal(g, m, level[s], s, useBinaryJoin) {
      assert OptimalButJoins(g, m, level[s], s, useBinaryJoin);
      assert |s| == k;
    }
  }

  lemma FirstLevel(g: Graph, m: Samples, planCache: seq<PlanLevel>, useBinaryJoin: bool)
    requires |planCache| == 1 && LevelOptimal(g, m, planCache[0], 1, useBinaryJoin)
    ensures LevelsOptimal(g, m, planCache, 2, useBinaryJoin)
  {
  }

  lemma FullLevelHasPlans(g: Graph, m: Samples, planCache: seq<PlanLevel>, useBinaryJoin: bool)
    requires g.Connected(g.nodes) && |g.nodes| >= 2 && LevelsOptimal(g, m, planCache, |g.nodes| + 1, useBinaryJoin)
    ensures planCache[|g.nodes| - 1].Keys == {g.nodes} && AllHavePlans(planCache[|g.nodes| - 1])
  {
    assert LevelOptimal(g, m, planCache[|g.nodes| - 1], |g.nodes|, useBinaryJoin);
    OnlyFullSet(g, planCache[|g.nodes| - 1].Keys);
  }

  /** The last level has the full set only, and its cheapest plan is the best there is. */
  ghost predicate FullLevel(g: Graph, m: Samples, level: PlanLevel, useBinaryJoin: bool) {
    level.Keys == {g.nodes} && AllHavePlans(level) && IsBest(g, m, Cheapest(level[g.nodes]), g.nodes, useBinaryJoin)
  }

  lemma FullLevelBest(g: Graph, m: Samples, planCache: seq<PlanLevel>, useBinaryJoin: bool)
    requires g.Connected(g.nodes) && |g.nodes| >= 2 && LevelsOptimal(g, m, planCache, |g.nodes| + 1, useBinaryJoin)
    ensures FullLevel(g, m, planCache[|g.nodes| - 1], useBinaryJoin)
  {
    var level := planCache[|g.nodes| - 1];
    FullLevelHasPlans(g, m, planCache, useBinaryJoin);
    assert LevelOptimal(g, m, level, |g.nodes|, useBinaryJoin);
    CheapestIsBest(g, m, level[g.nodes], g.nodes, useBinaryJoin);
  }

  lemma OnlyFullCards(g: Graph, cardCache: seq<CardLevel>)
    requires g.Connected(g.nodes) && |g.nodes| >= 2 && CardLevelsComplete(g, cardCache, |g.nodes| + 1)
    ensures cardCache[|g.nodes| - 2].Keys == {g.nodes}
  {
    assert Complete(g, cardCache[|g.nodes| - 2].Keys, |g.nodes|);
    OnlyFullSet(g, cardCache[|g.nodes| - 2].Keys);
  }

  lemma OnlyFullSet(g: Graph, keys: set<set<nat>>)
    requires g.Connected(g.nodes) && Complete(g, keys, |g.nodes|)
    ensures keys == {g.nodes}
  {
    forall s | s in keys ensures s == g.nodes {
      SameSize(s, g.nodes);
    }
  }

  ghost predicate SplitsBeaten(g: Graph, m: Samples, planCache: seq<PlanLevel>, plans: seq<Plan>, s: set<nat>, smalls: set<set<nat>>) {
    forall small :: small in smalls ==> SplitBeaten(g, m, planCache, plans, s, small)
  }

  lemma SplitsStayBeaten(g: Graph, m: Samples, planCache: seq<PlanLevel>, before: seq<Plan>, after: seq<Plan>, s: set<nat>,
                         smalls: set<set<nat>>, small: set<nat>)
    requires before <= after && SplitsBeaten(g, m, planCache, before, s, smalls) && SplitBeaten(g, m, planCache, after, s, small)
    ensures SplitsBeaten(g, m, planCache, after, s, smalls + {small})
  {
    forall t | t in smalls ensures SplitBeaten(g, m, planCache, after, s, t) {
      SplitStaysBeaten(g, m, planCache, before, after, s, t);
    }
  }

  lemma SplitStaysBeaten(g: Graph, m: Samples, planCache: seq<PlanLevel>, before: seq<Plan>, after: seq<Plan>, s: set<nat>, t: set<nat>)
    requires before <= after && SplitBeaten(g, m, planCache, before, s, t)
    ensures SplitBeaten(g, m, planCache, after, s, t)
  {
    if before != [] {
      assert Cheapest(before) in after;
    }
  }

  lemma StillOptimalButJoins(g: Graph, m: Samples, before: seq<Plan>, after: seq<Plan>, s: set<nat>)
    requires OptimalButJoins(g, m, before, s, true) && before <= after && PlansSound(g, m, after, s, true)
    ensures OptimalButJoins(g, m, after, s, true)
  {
    forall shape | Allowed(g, shape, true) && shape.Vars() == s && !shape.Join? ensures Beats(g, m, after, shape) {
      assert Beats(g, m, before, shape);
      assert Cheapest(before) in after;
    }
  }

  lemma AllSplitsMakeOptimal(g: Graph, m: Samples, planCache: seq<PlanLevel>, plans: seq<Plan>, s: set<nat>)
    requires g.Valid() && |s| >= SMALL_SIZE + 2 && LevelsOptimal(g, m, planCache, |s|, true)
    requires OptimalButJoins(g, m, plans, s, true) && SplitsBeaten(g, m, planCache, plans, s, planCache[2].Keys)
    ensures Optimal(g, m, plans, s, true)
  {
    SplitsMakeOptimal(g, m, planCache, plans, s);
  }

  lemma LevelFinished(g: Graph, m: Samples, before: seq<PlanLevel>, after: seq<PlanLevel>, k: nat, useBinaryJoin: bool)
    requires k >= 1 && |before| == |after| == k && LevelsOptimal(g, m, before, k, useBinaryJoin) && before[..k - 1] == after[..k - 1]
    requires LevelOptimal(g, m, after[k - 1], k, useBinaryJoin)
    ensures LevelsOptimal(g, m, after, k + 1, useBinaryJoin)
  {
    forall i | 0 <= i < k ensures LevelOptimal(g, m, after[i], i + 1, useBinaryJoin) {
      if i < k - 1 {
        assert after[i] == before[..k - 1][i];
        assert LevelOptimal(g, m, before[i], i + 1, useBinaryJoin);
      }
    }
  }

  lemma MoreJoinNodes(g: Graph, part: set<nat>, others: set<nat>, node: nat)
    requires node in g.nei
    ensures JoinNodesOf(g, part, others + {node}) == JoinNodesOf(g, part, others) + (set v | v in g.nei[node] && v in part)
  {
    var left, right := JoinNodesOf(g, part, others + {node}), JoinNodesOf(g, part, others) + (set v | v in g.nei[node] && v in part);
    forall x ensures x in left <==> x in right {
      if x in left {
        var y :| y in others + {node} && g.Adjacent(y, x);
        assert y in others || y == node;
      }
      if x in g.nei[node] && x in part {
        assert node in others + {node} && g.Adjacent(node, x);
      }
    }
  }

  lemma PartConnected(g: Graph, m: Samples, planCache: seq<PlanLevel>, part: set<nat>, k: nat)
    requires LevelsOptimal(g, m, planCache, k, true) && 1 <= |part| < k && part in planCache[|part| - 1]
    ensures g.Connected(part)
  {
    assert LevelOptimal(g, m, planCache[|part| - 1], |part|, true);
  }

  lemma JoinOfBestIs(g: Graph, m: Samples, planCache: seq<PlanLevel>, s: set<nat>, small: set<nat>, other: set<nat>)
    requires |small| == SMALL_SIZE <= |planCache| && small in planCache[2] && planCache[2][small] != []
    requires other == OtherNodes(g, s, small) && 1 <= |other| <= |planCache| && other in planCache[|other| - 1] && planCache[|other| - 1][other] != []
    ensures JoinOfBest(g, m, planCache, s, small)
         == JoinPlan(m, small, other, Cheapest(planCache[2][small]), Cheapest(planCache[|other| - 1][other]))
  {
  }

  lemma CachedPlans(g: Graph, m: Samples, planCache: seq<PlanLevel>, k: nat, s: set<nat>, useBinaryJoin: bool)
    requires LevelsOptimal(g, m, planCache, k, useBinaryJoin) && g.Connected(s) && |s| < k
    ensures 1 <= |s| <= |planCache| && s in planCache[|s| - 1] && planCache[|s| - 1][s] != []
  {
    BestAtIsBest(g, m, planCache, k, s, useBinaryJoin);
  }

  lemma PartsReady(g: Graph, m: Samples, planCache: seq<PlanLevel>, s: set<nat>, small: set<nat>, other: set<nat>)
    requires |s| >= SMALL_SIZE + 2 && LevelsOptimal(g, m, planCache, |s|, true) && g.Connected(small) && |small| == SMALL_SIZE
    requires SplitConsidered(g, s, small) && other == OtherNodes(g, s, small) && 3 <= |other| <= |s| - 2
    requires other in planCache[|other| - 1]
    ensures g.Connected(other) && small in planCache[2] && planCache[2][small] != [] && planCache[|other| - 1][other] != []
    ensures JoinOfBest(g, m, planCache, s, small)
         == JoinPlan(m, small, other, Cheapest(planCache[2][small]), Cheapest(planCache[|other| - 1][other]))
    ensures PlansSound(g, m, [JoinOfBest(g, m, planCache, s, small)], s, true)
  {
    PartConnected(g, m, planCache, other, |s|);
    CachedPlans(g, m, planCache, |s|, small, true);
    CachedPlans(g, m, planCache, |s|, other, true);
    JoinOfBestIs(g, m, planCache, s, small, other);
    JoinOfBestSound(g, m, planCache, s, small);
  }

  lemma SmallConnected(g: Graph, m: Samples, planCache: seq<PlanLevel>, small: set<nat>, k: nat)
    requires k >= SMALL_SIZE + 2 && LevelsOptimal(g, m, planCache, k, true) && small in planCache[2]
    ensures g.Connected(small) && |small| == SMALL_SIZE
  {
    assert LevelOptimal(g, m, planCache[2], 3, true);
  }

  lemma PartMissing(g: Graph, m: Samples, planCache: seq<PlanLevel>, part: set<nat>, k: nat)
    requires LevelsOptimal(g, m, planCache, k, true) && 1 <= |part| < k && part !in planCache[|part| - 1]
    ensures !g.Connected(part)
  {
    assert LevelOptimal(g, m, planCache[|part| - 1], |part|, true);
  }

  /** Sizes of connected sets are always in the cache when they are looked up. */
  lemma PartsHaveCards(g: Graph, m: Samples, cardCache: seq<CardLevel>, small: set<nat>, other: set<nat>, k: nat)
    requires AllCardsOk(m, cardCache) && CardLevelsComplete(g, cardCache, k)
    requires g.Connected(small) && g.Connected(other) && 2 <= |small| < k && 2 <= |other| < k
    ensures Cached(cardCache, small) && cardCache[|small| - 2][small] == m.Card(small)
    ensures Cached(cardCache, other) && cardCache[|other| - 2][other] == m.Card(other)
  {
    assert Complete(g, cardCache[|small| - 2].Keys, |small|) && CardsOk(m, cardCache[|small| - 2], |small|);
    assert Complete(g, cardCache[|other| - 2].Keys, |other|) && CardsOk(m, cardCache[|other| - 2], |other|);
  }

  lemma AllOfferedMore(g: Graph, m: Samples, previous: PlanLevel, before: Search, after: Search, done: set<set<nat>>, last: set<nat>)
    requires forall last :: last in previous ==> last != {} && previous[last] != []
    requires done <= previous.Keys && last in previous && Grown(before, after)
    requires AllOffered(g, m, previous, before.level, done) && Offered(g, m, previous[last], after.level, last, Neighbours(g, last))
    ensures AllOffered(g, m, previous, after.level, done + {last})
  {
    forall l | l in done ensures Offered(g, m, previous[l], after.level, l, Neighbours(g, l)) {
      assert Offered(g, m, previous[l], before.level, l, Neighbours(g, l));
    }
  }

  lemma RoundFinished(g: Graph, search: Search, planCache: seq<PlanLevel>, cardCache: seq<CardLevel>, varNum: nat, largest: set<nat>)
    requires search.At(planCache, cardCache) && search.Fits(g, varNum) && Complete(g, search.level.Keys, varNum)
    requires g.Connected(largest) && |largest| == varNum
    ensures |planCache| == varNum && planCache[..varNum - 1] == search.plansBefore && planCache[varNum - 1] == search.level
    ensures |cardCache| == varNum - 1 && CardLevelsComplete(g, cardCache, varNum + 1)
  {
    assert largest in search.level.Keys;
    forall i | 0 <= i < varNum - 1 ensures Complete(g, cardCache[i].Keys, i + 2) {
      if i < varNum - 2 {
        assert Complete(g, search.cardsBefore[i].Keys, i + 2);
      }
    }
  }

  /** The caches during one round: what they held before it, and what the round has added. */
  datatype Search = Search(plansBefore: seq<PlanLevel>, level: PlanLevel, cardsBefore: seq<CardLevel>, cards: CardLevel) {
    ghost predicate At(planCache: seq<PlanLevel>, cardCache: seq<CardLevel>) {
      planCache == Opened(plansBefore, level) && cardCache == Opened(cardsBefore, cards)
    }

    ghost predicate Fits(g: Graph, varNum: nat) {
      && varNum >= 2 && |plansBefore| == varNum - 1 && |cardsBefore| == varNum - 2
      && CardLevelsComplete(g, cardsBefore, varNum) && cards.Keys == level.Keys
    }

    ghost function With(m: Samples, now: set<nat>, plan: Plan): Search {
      Search(plansBefore, LevelWith(level, now, plan), cardsBefore, if now in cards then cards else cards[now := m.Card(now)])
    }

    lemma CompleteBefore(g: Graph, varNum: nat, planCache: seq<PlanLevel>, cardCache: seq<CardLevel>)
      requires At(planCache, cardCache) && Fits(g, varNum)
      ensures CardLevelsComplete(g, cardCache, varNum)
    {
      forall i | 0 <= i < varNum - 2 ensures Complete(g, cardCache[i].Keys, i + 2) {
        assert Complete(g, cardsBefore[i].Keys, i + 2);
      }
    }

    lemma CardsOpened(m: Samples, now: set<nat>, varNum: nat)
      requires varNum >= 2 && |cardsBefore| == varNum - 2 && |now| == varNum
      ensures CardsWith(Opened(cardsBefore, cards), now, m.Card(now)) == Opened(cardsBefore, if now in cards then cards else cards[now := m.Card(now)])
    {
      var current := Opened(cardsBefore, cards);
      if cards.Keys == {} {
        assert cards == map[];
        assert now in (map[now := m.Card(now)]).Keys;
      } else if now !in cards {
        var level: CardLevel := cards[now := m.Card(now)];
        assert now in level.Keys;
        assert current[|now| - 2] == cards;
        assert current[|now| - 2 := level] == cardsBefore + [level];
      }
    }
  }

  /** What a round has collected only grows. */
  ghost predicate Grown(before: Search, after: Search) {
    && after.plansBefore == before.plansBefore && after.cardsBefore == before.cardsBefore
    && forall s :: s in before.level ==> s in after.level && forall p :: p in before.level[s] ==> p in after.level[s]
  }

  lemma TodoShrinks<T>(all: set<T>, todo: set<T>, x: T)
    requires x in todo && todo <= all
    ensures all - (todo - {x}) == (all - todo) + {x}
  {
  }

  lemma WithGrows(m: Samples, before: Search, now: set<nat>, plan: Plan)
    ensures Grown(before, before.With(m, now, plan))
  {
  }

  lemma WithFits(g: Graph, m: Samples, before: Search, varNum: nat, now: set<nat>, plan: Plan)
    requires before.Fits(g, varNum)
    ensures before.With(m, now, plan).Fits(g, varNum)
  {
    assert LevelWith(before.level, now, plan).Keys == before.level.Keys + {now};
    assert (if now in before.cards then before.cards else before.cards[now := m.Card(now)]).Keys == before.cards.Keys + {now};
  }

  lemma OfferedOneMore(g: Graph, m: Samples, plans: seq<Plan>, level: PlanLevel, last: set<nat>, nodes: set<nat>, next: nat)
    requires last != {} && plans != [] && Offered(g, m, plans, level, last, nodes)
    ensures Offered(g, m, plans, LevelWith(level, last + {next}, Offer(g, m, last, Cheapest(plans), next)), last, nodes + {next})
  {
    OfferedStays(g, m, plans, level, last, nodes, last + {next}, Offer(g, m, last, Cheapest(plans), next));
  }

  lemma OfferKeepsSound(g: Graph, m: Samples, plans: seq<Plan>, level: PlanLevel, last: set<nat>, next: nat, varNum: nat, useBinaryJoin: bool)
    requires g.Valid() && g.Connected(last) && varNum == |last| + 1 && PlansSound(g, m, plans, last, useBinaryJoin) && next in Neighbours(g, last)
    requires LevelSound(g, m, level, varNum, useBinaryJoin)
    ensures LevelSound(g, m, LevelWith(level, last + {next}, Offer(g, m, last, Cheapest(plans), next)), varNum, useBinaryJoin)
  {
    OfferSound(g, m, last, plans, next, useBinaryJoin);
    NextConnected(g, last, next);
    LevelWithSound(g, m, level, varNum, useBinaryJoin, last + {next}, Offer(g, m, last, Cheapest(plans), next));
  }

  lemma GrownTrans(a: Search, b: Search, c: Search)
    requires Grown(a, b) && Grown(b, c)
    ensures Grown(a, c)
  {
  }

  lemma OfferTaken(g: Graph, m: Samples, plans: seq<Plan>, last: set<nat>, next: nat, nodes: set<nat>, varNum: nat,
                   first: Search, before: Search, after: Search, useBinaryJoin: bool)
    requires g.Valid() && g.Connected(last) && varNum == |last| + 1 && PlansSound(g, m, plans, last, useBinaryJoin) && next in Neighbours(g, last)
    requires LevelSound(g, m, before.level, varNum, useBinaryJoin) && before.Fits(g, varNum) && Grown(first, before)
    requires after == before.With(m, last + {next}, Offer(g, m, last, Cheapest(plans), next))
    requires Offered(g, m, plans, before.level, last, nodes)
    ensures LevelSound(g, m, after.level, varNum, useBinaryJoin) && after.Fits(g, varNum)
    ensures Offered(g, m, plans, after.level, last, nodes + {next})
    ensures Grown(first, after)
  {
    var now, plan := last + {next}, Offer(g, m, last, Cheapest(plans), next);
    OfferKeepsSound(g, m, plans, before.level, last, next, varNum, useBinaryJoin);
    WithFits(g, m, before, varNum, now, plan);
    OfferedOneMore(g, m, plans, before.level, last, nodes, next);
    WithGrows(m, before, now, plan);
    GrownTrans(first, before, after);
  }

  function NeighboursOver(g: Graph, last: set<nat>, part: set<nat>): set<nat> {
    set v | v in g.nodes && v !in last && g.Touches(part, v)
  }

  lemma MoreNeighbours(g: Graph, last: set<nat>, part: set<nat>, node: nat)
    requires node in last && node !in part && node in g.nei
    ensures last - (last - (part + {node})) == last * (part + {node})
    ensures NeighboursOver(g, last, part + {node})
         == NeighboursOver(g, last, part) + (set v | v in g.nei[node] && v in g.nodes && v !in last)
  {
    forall v ensures g.Touches(part + {node}, v) <==> g.Touches(part, v) || v in g.nei[node] {
      if g.Touches(part, v) {
        var a :| a in part && g.Adjacent(a, v);
        assert a in part + {node};
      }
      if v in g.nei[node] {
        assert node in part + {node} && g.Adjacent(node, v);
      }
    }
  }

  lemma {:induction false} KeepSnoc(xs: seq<nat>, x: nat, s: set<nat>)
    ensures Keep(xs + [x], s) == Keep(xs, s) + (if x in s then [x] else [])
  {
    if xs == [] {
      assert xs + [x] == [x];
    } else {
      var head := if xs[0] in s then [xs[0]] else [];
      assert (xs + [x])[1..] == xs[1..] + [x];
      KeepSnoc(xs[1..], x, s);
      assert Keep(xs + [x], s) == head + Keep(xs[1..] + [x], s);
    }
  }
}
