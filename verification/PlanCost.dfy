/**
 The plans the search chooses from and what they cost. A shape is a plan without its operations: which
 variables it scans, extends by, brings in as a pair, or joins as two sub-plans.
 */
module PlanCost {
  import opened JoinGraph

  datatype Shape =
    | Scan(v: nat)
    | Extend(sub: Shape, v: nat)
    | P2so(a: nat, b: nat)
    | Join(small: Shape, other: Shape)
  {
    function Vars(): set<nat> {
      match this
      case Scan(v) => {v}
      case Extend(sub, v) => sub.Vars() + {v}
      case P2so(a, b) => {a, b}
      case Join(small, other) => small.Vars() + other.Vars()
    }
  }

  /**
   What sampling returns, and the machine's product of a count and an average, rounded however it is.
   Every sampled value is asked for at most once in a search and then cached, so the outcome of the
   random samples of one search is a function.
   */
  datatype Samples = Samples(varNum: nat -> nat, setSample: set<nat> -> int, linkedAverage: (nat, nat) -> real,
                             pairNum: (nat, nat) -> nat, product: (nat, real) -> nat) {
    function Card(s: set<nat>): nat {
      if setSample(s) < 1 then 1 else setSample(s)
    }

    function Average(from: nat, to: nat): real {
      if linkedAverage(from, to) < 1.0 then 1.0 else linkedAverage(from, to)
    }

    function ScanCost(v: nat): nat {
      if varNum(v) / 2 < 1 then 1 else varNum(v) / 2
    }

    function P2soCost(a: nat, b: nat): nat {
      if pairNum(a, b) < 1 then 1 else pairNum(a, b)
    }

    function TwoNodesSize(from: nat, to: nat): nat {
      product(varNum(from), Average(from, to))
    }

    /** Estimated size when a node is joined to a plan: one variable, or more. */
    function WcoSize(g: Graph, last: set<nat>, next: nat): nat
      requires last != {}
    {
      if |last| == 1 then TwoNodesSize(TheOne(last), next)
      else product(Card(last), MinAverage(this, LinkedNeighbours(g, last, next), next))
    }
  }

  lemma OneElement(s: set<nat>)
    requires |s| == 1
    ensures exists x :: x in s && s == {x}
  {
    var x :| x in s;
    assert |s - {x}| == 0;
    assert s == {x};
  }

  function TheOne(s: set<nat>): (x: nat)
    requires |s| == 1
    ensures s == {x}
  {
    OneElement(s);
    var x :| x in s && s == {x};
    x
  }

  /** The neighbours of the next node in the plan so far, one entry per edge. */
  function LinkedNeighbours(g: Graph, last: set<nat>, next: nat): seq<nat> {
    if next in g.nei then Keep(g.nei[next], last) else []
  }

  function Keep(xs: seq<nat>, s: set<nat>): (r: seq<nat>)
    ensures forall x :: x in r <==> x in xs && x in s
  {
    if xs == [] then [] else (if xs[0] in s then [xs[0]] else []) + Keep(xs[1..], s)
  }

  function MinAverage(m: Samples, from: seq<nat>, to: nat): real {
    if from == [] then 1.0
    else if |from| == 1 then m.Average(from[0], to)
    else
      var rest := MinAverage(m, from[..|from| - 1], to);
      var last := m.Average(from[|from| - 1], to);
      if last < rest then last else rest
  }

  /** It is the average of some of the nodes, and at most that of every one. */
  lemma {:induction false} MinAverageLeast(m: Samples, from: seq<nat>, to: nat)
    requires from != []
    ensures exists x :: x in from && MinAverage(m, from, to) == m.Average(x, to)
    ensures forall x :: x in from ==> MinAverage(m, from, to) <= m.Average(x, to)
  {
    if |from| == 1 {
      assert from[0] in from;
    } else {
      var init, last := from[..|from| - 1], from[|from| - 1];
      assert from == init + [last];
      MinAverageLeast(m, init, to);
      var x :| x in init && MinAverage(m, init, to) == m.Average(x, to);
      assert x in from && last in from;
    }
  }

  /** The nodes of the first part that have an edge into the others. */
  function JoinNodesOf(g: Graph, part: set<nat>, others: set<nat>): (r: set<nat>)
    ensures r <= part
  {
    set x | x in part && exists y :: y in others && g.Adjacent(y, x)
  }

  const SMALL_SIZE := 3

  /** Which splits into two overlapping sub-plans the search considers. */
  predicate AllowedSplit(g: Graph, small: set<nat>, other: set<nat>) {
    var all := small + other;
    var rest := all - small;
    var joinNodes := JoinNodesOf(g, small, rest);
    && |all| >= SMALL_SIZE + 2 && |small| == SMALL_SIZE
    && other == rest + joinNodes && joinNodes != {} && |joinNodes| + |rest| < |all| - 1
  }

  /** The class of plans: connected orders, pairs, and the allowed binary joins where they are used. */
  predicate Allowed(g: Graph, shape: Shape, useBinaryJoin: bool) {
    match shape
    case Scan(v) => v in g.nodes
    case Extend(sub, v) => Allowed(g, sub, useBinaryJoin) && v in g.nodes && v !in sub.Vars() && g.Touches(sub.Vars(), v)
    case P2so(a, b) => a in g.nodes && b in g.nodes && a != b && g.Adjacent(a, b)
    case Join(small, other) =>
      useBinaryJoin && Allowed(g, small, true) && Allowed(g, other, true) && AllowedSplit(g, small.Vars(), other.Vars())
  }

  function BinaryCost(m: Samples, a: set<nat>, b: set<nat>, aCost: nat, bCost: nat): nat {
    var lo, hi := if m.Card(a) <= m.Card(b) then m.Card(a) else m.Card(b), if m.Card(a) <= m.Card(b) then m.Card(b) else m.Card(a);
    lo + 2 * hi + aCost + bCost
  }

  lemma {:induction false} VarsNonEmpty(shape: Shape)
    ensures shape.Vars() != {}
  {
    match shape
    case Scan(v) => assert v in shape.Vars();
    case Extend(_, v) => assert v in shape.Vars();
    case P2so(a, _) => assert a in shape.Vars();
    case Join(small, _) =>
      VarsNonEmpty(small);
      var x :| x in small.Vars();
      assert x in shape.Vars();
  }

  function Cost(g: Graph, m: Samples, shape: Shape): nat {
    match shape
    case Scan(v) => m.ScanCost(v)
    case Extend(sub, v) => VarsNonEmpty(sub); Cost(g, m, sub) + m.WcoSize(g, sub.Vars(), v)
    case P2so(a, b) => m.P2soCost(a, b)
    case Join(small, other) => BinaryCost(m, small.Vars(), other.Vars(), Cost(g, m, small), Cost(g, m, other))
  }

  /** The union of two overlapping connected sets is connected. */
  lemma OverlapConnected(g: Graph, a: set<nat>, b: set<nat>)
    requires g.Connected(a) && g.Connected(b) && a * b != {} && g.Valid()
    ensures g.Connected(a + b)
  {
    var all := a + b;
    forall part | {} < part < all ensures g.Linked(part, all - part) {
      if a <= part {
        assert part * b != {} && part * b != b;
        LinkedInside(g, b, part, all);
      } else if a * part != {} {
        LinkedInside(g, a, part, all);
      } else {
        assert part * b != {} && part * b != b;
        LinkedInside(g, b, part, all);
      }
    }
  }

  lemma LinkedInside(g: Graph, s: set<nat>, part: set<nat>, all: set<nat>)
    requires g.Connected(s) && s <= all && {} < part * s < s
    ensures g.Linked(part, all - part)
  {
    assert g.Linked(part * s, s - part * s);
    var x, y :| x in part * s && y in s - part * s && g.Adjacent(x, y);
    assert x in part && y in all - part;
  }

  /** Every allowed plan is about a connected set of variables. */
  lemma {:induction false} AllowedConnected(g: Graph, shape: Shape, useBinaryJoin: bool)
    requires g.Valid() && Allowed(g, shape, useBinaryJoin)
    ensures g.Connected(shape.Vars())
  {
    match shape
    case Scan(v) => SingleConnected(g, v);
    case Extend(sub, v) =>
      AllowedConnected(g, sub, useBinaryJoin);
      ExtendConnected(g, sub.Vars(), v);
    case P2so(a, b) =>
      SingleConnected(g, a);
      ExtendConnected(g, {a}, b);
      assert {a} + {b} == {a, b};
    case Join(small, other) =>
      AllowedConnected(g, small, true);
      AllowedConnected(g, other, true);
      var joinNodes := JoinNodesOf(g, small.Vars(), (small.Vars() + other.Vars()) - small.Vars());
      var x :| x in joinNodes;
      assert x in small.Vars() * other.Vars();
      OverlapConnected(g, small.Vars(), other.Vars());
  }

  // ---- plans with their cost ----

  datatype Plan = Plan(shape: Shape, cost: nat)

  /** The first of the cheapest plans of a list. */
  function Cheapest(plans: seq<Plan>): (best: Plan)
    requires plans != []
    ensures best in plans && forall p :: p in plans ==> best.cost <= p.cost
  {
    if |plans| == 1 then plans[0] else
      var earlier, last := Cheapest(plans[..|plans| - 1]), plans[|plans| - 1];
      assert plans == plans[..|plans| - 1] + [last];
      if last.cost < earlier.cost then last else earlier
  }

  ghost predicate PlansSound(g: Graph, m: Samples, plans: seq<Plan>, s: set<nat>, useBinaryJoin: bool) {
    plans != [] && forall p :: p in plans ==> Allowed(g, p.shape, useBinaryJoin) && p.shape.Vars() == s && p.cost == Cost(g, m, p.shape)
  }

  ghost predicate Beats(g: Graph, m: Samples, plans: seq<Plan>, shape: Shape) {
    plans != [] && Cheapest(plans).cost <= Cost(g, m, shape)
  }

  /** The list holds a plan at most as costly as any plan of the class for the variables. */
  ghost predicate Optimal(g: Graph, m: Samples, plans: seq<Plan>, s: set<nat>, useBinaryJoin: bool) {
    && PlansSound(g, m, plans, s, useBinaryJoin)
    && forall shape :: Allowed(g, shape, useBinaryJoin) && shape.Vars() == s ==> Beats(g, m, plans, shape)
  }

  /** The same for plans that do not end in a binary join. */
  ghost predicate OptimalButJoins(g: Graph, m: Samples, plans: seq<Plan>, s: set<nat>, useBinaryJoin: bool) {
    && PlansSound(g, m, plans, s, useBinaryJoin)
    && forall shape :: Allowed(g, shape, useBinaryJoin) && shape.Vars() == s && !shape.Join? ==> Beats(g, m, plans, shape)
  }

  lemma CheapestOfOptimal(g: Graph, m: Samples, plans: seq<Plan>, s: set<nat>, useBinaryJoin: bool, shape: Shape)
    requires Optimal(g, m, plans, s, useBinaryJoin) && Allowed(g, shape, useBinaryJoin) && shape.Vars() == s
    ensures Cheapest(plans).cost <= Cost(g, m, shape)
  {
    assert Beats(g, m, plans, shape);
  }

  type PlanLevel = map<set<nat>, seq<Plan>>

  /** The level holds the connected sets of its size and nothing else. */
  ghost predicate Complete(g: Graph, keys: set<set<nat>>, k: nat) {
    forall s :: s in keys <==> g.Connected(s) && |s| == k
  }

  ghost predicate LevelOptimal(g: Graph, m: Samples, level: PlanLevel, k: nat, useBinaryJoin: bool) {
    Complete(g, level.Keys, k) && forall s :: s in level ==> Optimal(g, m, level[s], s, useBinaryJoin)
  }

  /** Nodes that can be joined next: next to the plan, not in it. */
  function Neighbours(g: Graph, s: set<nat>): set<nat> {
    set v | v in g.nodes && v !in s && g.Touches(s, v)
  }

  /** The plan for one more node: an extension of the best plan or, for two nodes, the pair if that is cheaper. */
  function Offer(g: Graph, m: Samples, last: set<nat>, best: Plan, next: nat): Plan
    requires last != {}
  {
    var wco := Plan(Extend(best.shape, next), best.cost + m.WcoSize(g, last, next));
    if |last| == 1 && m.P2soCost(TheOne(last), next) < wco.cost then Plan(P2so(TheOne(last), next), m.P2soCost(TheOne(last), next)) else wco
  }

  lemma ExtensionSound(g: Graph, m: Samples, last: set<nat>, best: Plan, next: nat, useBinaryJoin: bool)
    requires Allowed(g, best.shape, useBinaryJoin) && best.shape.Vars() == last && best.cost == Cost(g, m, best.shape)
    requires next in Neighbours(g, last) && last != {}
    ensures PlansSound(g, m, [Plan(Extend(best.shape, next), best.cost + m.WcoSize(g, last, next))], last + {next}, useBinaryJoin)
  {
  }

  lemma PairSound(g: Graph, m: Samples, a: nat, next: nat, useBinaryJoin: bool)
    requires a in g.nodes && next in Neighbours(g, {a})
    ensures PlansSound(g, m, [Plan(P2so(a, next), m.P2soCost(a, next))], {a} + {next}, useBinaryJoin)
  {
    assert {a} + {next} == {a, next};
  }

  lemma OfferSound(g: Graph, m: Samples, last: set<nat>, plans: seq<Plan>, next: nat, useBinaryJoin: bool)
    requires g.Connected(last) && PlansSound(g, m, plans, last, useBinaryJoin) && next in Neighbours(g, last)
    ensures PlansSound(g, m, [Offer(g, m, last, Cheapest(plans), next)], last + {next}, useBinaryJoin)
  {
    ExtensionSound(g, m, last, Cheapest(plans), next, useBinaryJoin);
    if |last| == 1 {
      PairSound(g, m, TheOne(last), next, useBinaryJoin);
    }
  }

  lemma NextConnected(g: Graph, last: set<nat>, next: nat)
    requires g.Valid() && g.Connected(last) && next in Neighbours(g, last)
    ensures g.Connected(last + {next}) && |last + {next}| == |last| + 1
  {
    ExtendConnected(g, last, next);
  }

  /** Every set of the next size is offered from some set of this size. */
  lemma OfferedFrom(g: Graph, s: set<nat>) returns (next: nat)
    requires g.Valid() && g.Connected(s) && |s| >= 2
    ensures next in s && g.Connected(s - {next}) && |s - {next}| == |s| - 1
    ensures next in Neighbours(g, s - {next}) && (s - {next}) + {next} == s
  {
    next := RemovableNode(g, s);
  }

  ghost predicate OffersIn(g: Graph, m: Samples, level: PlanLevel, plans: seq<Plan>, s: set<nat>)
    requires forall last :: last in level ==> last != {} && level[last] != []
  {
    forall last, next :: last in level && next in Neighbours(g, last) && last + {next} == s ==>
      Offer(g, m, last, Cheapest(level[last]), next) in plans
  }

  lemma LevelShape(g: Graph, m: Samples, level: PlanLevel, k: nat, useBinaryJoin: bool)
    requires LevelOptimal(g, m, level, k, useBinaryJoin)
    ensures forall last :: last in level ==> last != {} && level[last] != []
  {
  }

  lemma OffersBeatExtension(g: Graph, m: Samples, level: PlanLevel, plans: seq<Plan>, sub: Shape, v: nat, useBinaryJoin: bool)
    requires g.Valid() && Allowed(g, Extend(sub, v), useBinaryJoin)
    requires LevelOptimal(g, m, level, |sub.Vars()|, useBinaryJoin)
    requires forall last :: last in level ==> last != {} && level[last] != []
    requires OffersIn(g, m, level, plans, sub.Vars() + {v})
    ensures Beats(g, m, plans, Extend(sub, v))
  {
    var last := sub.Vars();
    AllowedConnected(g, sub, useBinaryJoin);
    assert last in level && v in Neighbours(g, last);
    CheapestOfOptimal(g, m, level[last], last, useBinaryJoin, sub);
    assert Offer(g, m, last, Cheapest(level[last]), v) in plans;
  }

  lemma OffersBeatPair(g: Graph, m: Samples, level: PlanLevel, plans: seq<Plan>, a: nat, b: nat, useBinaryJoin: bool)
    requires g.Valid() && Allowed(g, P2so(a, b), useBinaryJoin)
    requires LevelOptimal(g, m, level, 1, useBinaryJoin)
    requires forall last :: last in level ==> last != {} && level[last] != []
    requires OffersIn(g, m, level, plans, {a} + {b})
    ensures Beats(g, m, plans, P2so(a, b))
  {
    SingleConnected(g, a);
    assert |{a}| == 1 && a in {a} && b in Neighbours(g, {a});
    assert TheOne({a}) == a;
    assert Offer(g, m, {a}, Cheapest(level[{a}]), b) in plans;
  }

  lemma ExtensionSize(sub: set<nat>, v: nat, s: set<nat>)
    requires v !in sub && s == sub + {v}
    ensures |sub| == |s| - 1
  {
  }

  lemma PairSize(a: nat, b: nat, s: set<nat>)
    requires a != b && s == {a, b}
    ensures {a} + {b} == s && |s| == 2
  {
  }

  /** What was offered for a set beats every extension and every pair over it. */
  lemma OffersBeat(g: Graph, m: Samples, level: PlanLevel, plans: seq<Plan>, s: set<nat>, shape: Shape, useBinaryJoin: bool)
    requires g.Valid() && |s| >= 2 && Allowed(g, shape, useBinaryJoin) && shape.Vars() == s && !shape.Join?
    requires LevelOptimal(g, m, level, |s| - 1, useBinaryJoin)
    requires forall last :: last in level ==> last != {} && level[last] != []
    requires OffersIn(g, m, level, plans, s)
    ensures Beats(g, m, plans, shape)
  {
    match shape
    case Scan(_) =>
    case Extend(sub, v) =>
      ExtensionSize(sub.Vars(), v, s);
      OffersBeatExtension(g, m, level, plans, sub, v, useBinaryJoin);
    case P2so(a, b) =>
      PairSize(a, b, s);
      OffersBeatPair(g, m, level, plans, a, b, useBinaryJoin);
  }
}
