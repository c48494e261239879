/**
 What a plan costs, said without the functions that compute it: every cost is tied to the sampled values by
 what it is the greatest, the least or the sum of.
 */
module PlanWorth {
  import opened JoinGraph
  import opened PlanCost

  predicate IsGreater(c: int, a: int, b: int) {
    a <= c && b <= c && (c == a || c == b)
  }

  /** The average number of partners, from one variable to another, and at least one. */
  predicate Partners(m: Samples, from: nat, to: nat, a: real) {
    1.0 <= a && m.linkedAverage(from, to) <= a && (a == 1.0 || a == m.linkedAverage(from, to))
  }

  /** The sampled size of a set, and at least one. */
  predicate SetSize(m: Samples, s: set<nat>, n: nat) {
    IsGreater(n, 1, m.setSample(s))
  }

  /** The average of some variable that is next to the new one, and no more than that of any other such variable. */
  ghost predicate LeastPartners(g: Graph, m: Samples, last: set<nat>, next: nat, a: real) {
    && (exists x :: x in last && g.Adjacent(next, x) && Partners(m, x, next, a))
    && (forall x, b :: x in last && g.Adjacent(next, x) && Partners(m, x, next, b) ==> a <= b)
  }

  /** The size charged for one more variable: from a single one, its count times its own average; else the set's size times the least average. */
  ghost predicate StepSize(g: Graph, m: Samples, last: set<nat>, next: nat, size: nat) {
    if |last| == 1 then exists x, a :: x in last && Partners(m, x, next, a) && size == m.product(m.varNum(x), a)
    else exists n, a :: SetSize(m, last, n) && LeastPartners(g, m, last, next, a) && size == m.product(n, a)
  }

  /** A table join costs what its parts cost, and their sizes, and the greater of the two sizes again. */
  ghost predicate JoinWorth(m: Samples, a: set<nat>, b: set<nat>, aCost: nat, bCost: nat, c: nat) {
    exists x: nat, y: nat, top: nat ::
      SetSize(m, a, x) && SetSize(m, b, y) && IsGreater(top, x, y) && c == aCost + bCost + x + y + top
  }

  ghost predicate Worth(g: Graph, m: Samples, shape: Shape, c: nat) {
    match shape
    case Scan(v) => IsGreater(c, 1, m.varNum(v) / 2)
    case Extend(sub, v) => exists before: nat, size: nat :: Worth(g, m, sub, before) && StepSize(g, m, sub.Vars(), v, size) && c == before + size
    case P2so(a, b) => IsGreater(c, 1, m.pairNum(a, b))
    case Join(small, other) =>
      exists a: nat, b: nat :: Worth(g, m, small, a) && Worth(g, m, other, b) && JoinWorth(m, small.Vars(), other.Vars(), a, b, c)
  }

  /** The plan is of the class, costs what it says, and no plan of the class for the same variables costs less. */
  ghost predicate CheapestPlan(g: Graph, m: Samples, p: Plan, s: set<nat>, useBinaryJoin: bool) {
    && Allowed(g, p.shape, useBinaryJoin) && p.shape.Vars() == s && Worth(g, m, p.shape, p.cost)
    && forall shape, c: nat :: Allowed(g, shape, useBinaryJoin) && shape.Vars() == s && Worth(g, m, shape, c) ==> p.cost <= c
  }

  // ---- the computed costs are these ----

  lemma AverageIs(m: Samples, from: nat, to: nat, a: real)
    ensures Partners(m, from, to, a) <==> a == m.Average(from, to)
  {
  }

  lemma CardIs(m: Samples, s: set<nat>, n: nat)
    ensures SetSize(m, s, n) <==> n == m.Card(s)
  {
  }

  /** The least average is the one the size is computed with. */
  lemma LeastIs(g: Graph, m: Samples, last: set<nat>, next: nat, a: real)
    requires LinkedNeighbours(g, last, next) != []
    ensures LeastPartners(g, m, last, next, a) <==> a == MinAverage(m, LinkedNeighbours(g, last, next), next)
  {
    var linked := LinkedNeighbours(g, last, next);
    var least := MinAverage(m, linked, next);
    forall x, b ensures Partners(m, x, next, b) <==> b == m.Average(x, next) {
      AverageIs(m, x, next, b);
    }
    MinAverageLeast(m, linked, next);
    var x :| x in linked && least == m.Average(x, next);
    assert Partners(m, x, next, least);
    if LeastPartners(g, m, last, next, a) {
      var y :| y in last && g.Adjacent(next, y) && Partners(m, y, next, a);
      assert y in linked && least <= m.Average(y, next);
      assert a <= least;
    }
  }

  lemma StepSizeIs(g: Graph, m: Samples, last: set<nat>, next: nat, size: nat)
    requires last != {} && LinkedNeighbours(g, last, next) != []
    ensures StepSize(g, m, last, next, size) <==> size == m.WcoSize(g, last, next)
  {
    if |last| == 1 {
      var v := TheOne(last);
      forall x, a ensures x in last && Partners(m, x, next, a) <==> x == v && a == m.Average(v, next) {
        AverageIs(m, x, next, a);
      }
      assert v in last && Partners(m, v, next, m.Average(v, next));
    } else {
      var least := MinAverage(m, LinkedNeighbours(g, last, next), next);
      forall n, a ensures SetSize(m, last, n) && LeastPartners(g, m, last, next, a) <==> n == m.Card(last) && a == least {
        CardIs(m, last, n);
        LeastIs(g, m, last, next, a);
      }
      assert SetSize(m, last, m.Card(last)) && LeastPartners(g, m, last, next, least);
    }
  }

  lemma JoinWorthIs(m: Samples, a: set<nat>, b: set<nat>, aCost: nat, bCost: nat, c: nat)
    ensures JoinWorth(m, a, b, aCost, bCost, c) <==> c == BinaryCost(m, a, b, aCost, bCost)
  {
    var x, y := m.Card(a), m.Card(b);
    forall n ensures (SetSize(m, a, n) <==> n == x) && (SetSize(m, b, n) <==> n == y) {
      CardIs(m, a, n);
      CardIs(m, b, n);
    }
    var top := if x <= y then y else x;
    assert SetSize(m, a, x) && SetSize(m, b, y) && IsGreater(top, x, y);
  }

  lemma TouchedLinked(g: Graph, last: set<nat>, next: nat)
    requires g.Valid() && last <= g.nodes && next in g.nodes && g.Touches(last, next)
    ensures LinkedNeighbours(g, last, next) != []
  {
    var x :| x in last && g.Adjacent(x, next);
    assert g.Adjacent(next, x) && x in LinkedNeighbours(g, last, next);
  }

  /** Every plan of the class has exactly one worth, and it is the cost the search computes. */
  lemma {:induction false} WorthIsCost(g: Graph, m: Samples, shape: Shape, useBinaryJoin: bool)
    requires g.Valid() && Allowed(g, shape, useBinaryJoin)
    ensures forall c: nat :: Worth(g, m, shape, c) <==> c == Cost(g, m, shape)
    decreases shape, 0
  {
    match shape
    case Scan(_) =>
    case P2so(_, _) =>
    case Extend(sub, v) => ExtendWorth(g, m, sub, v, useBinaryJoin);
    case Join(small, other) =>
      WorthIsCost(g, m, small, true);
      WorthIsCost(g, m, other, true);
      forall c: nat ensures Worth(g, m, shape, c) <==> c == Cost(g, m, shape) {
        JoinWorthIs(m, small.Vars(), other.Vars(), Cost(g, m, small), Cost(g, m, other), c);
      }
  }

  lemma {:induction false} ExtendWorth(g: Graph, m: Samples, sub: Shape, v: nat, useBinaryJoin: bool)
    requires g.Valid() && Allowed(g, Extend(sub, v), useBinaryJoin)
    ensures forall c: nat :: Worth(g, m, Extend(sub, v), c) <==> c == Cost(g, m, Extend(sub, v))
    decreases sub, 1
  {
    WorthIsCost(g, m, sub, useBinaryJoin);
    AllowedConnected(g, sub, useBinaryJoin);
    TouchedLinked(g, sub.Vars(), v);
    forall size: nat ensures StepSize(g, m, sub.Vars(), v, size) <==> size == m.WcoSize(g, sub.Vars(), v) {
      StepSizeIs(g, m, sub.Vars(), v, size);
    }
    assert Worth(g, m, sub, Cost(g, m, sub)) && StepSize(g, m, sub.Vars(), v, m.WcoSize(g, sub.Vars(), v));
  }

  lemma PairSizeIs(g: Graph, m: Samples, from: nat, to: nat)
    ensures StepSize(g, m, {from}, to, m.TwoNodesSize(from, to))
  {
    AverageIs(m, from, to, m.Average(from, to));
    assert |{from}| == 1 && from in {from};
  }
}
