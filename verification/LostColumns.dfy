/**
 A query whose execution reads a column that is not there: the plan is one the search may choose, with a
 table join below a last variable, and the small part of the join has no solutions.
 */
module LostColumns {
  import opened Rdf
  import opened Semantics
  import opened BasicGraphPattern
  import opened JoinGraph
  import opened PlanCost
  import opened PlanTreeBuilder
  import BF = BreadthFirst
  import opened PlanMeaning
  import opened QueryAnswer

  const ONLY_PREDICATE: nat := 7

  function Hop(i: nat): TriplePattern {
    TriplePattern(i, false, ONLY_PREDICATE, true, i + 1, false)
  }

  const LENGTH: nat := 5

  /** A path of five edges over the one predicate, from variable 0 to variable 5. */
  ghost predicate IsPath(bgp: Patterns) {
    |bgp| == LENGTH && forall i :: 0 <= i < LENGTH ==> bgp[i] == Hop(i)
  }

  /** Three variables of the path, one after the other. */
  predicate IsPart(shape: Shape, a: nat) {
    shape == Extend(Extend(Scan(a), a + 1), a + 2)
  }

  /** The first three variables joined with the middle three, and the last variable on top. */
  predicate IsPathShape(shape: Shape) {
    shape.Extend? && shape.v == LENGTH && shape.sub.Join? && IsPart(shape.sub.small, 0) && IsPart(shape.sub.other, 2)
  }

  /** A store with one triple, so with the predicate but without a path of two edges; there are no candidate caches. */
  ghost predicate HasOneTriple(env: Env, bgp: Patterns) {
    && env.g == {Triple(10, ONLY_PREDICATE, 11)} && env.caches == map[] && env.entities == {10, 11}
    && forall v :: v in SoVars(bgp) ==> v in env.roles && env.roles[v] == GetOccurPosition(bgp, v)
  }

  lemma HopIn(bgp: Patterns, i: nat)
    requires IsPath(bgp) && i < LENGTH
    ensures Hop(i) in bgp && i in SoVars(bgp) && i + 1 in SoVars(bgp)
  {
    assert bgp[i] == Hop(i) && bgp[i] in bgp;
    PatternVars(bgp, Hop(i));
  }

  lemma PathVars(bgp: Patterns)
    requires IsPath(bgp)
    ensures Between(SoVars(bgp), 0, LENGTH)
  {
    forall v: nat | v <= LENGTH ensures v in SoVars(bgp) {
      HopIn(bgp, if v < LENGTH then v else v - 1);
    }
    forall v | v in SoVars(bgp) ensures v <= LENGTH {
      var t :| t in bgp && (t.s == v || t.o == v);
      var i :| 0 <= i < |bgp| && bgp[i] == t;
    }
  }

  lemma PathOk(bgp: Patterns)
    requires IsPath(bgp)
    ensures QueryOk(bgp) && forall t :: t in bgp ==> t.Joins()
  {
  }

  lemma NextTo(g: Graph, bgp: Patterns, i: nat)
    requires IsPath(bgp) && IsJoinGraph(g, bgp) && i < LENGTH
    ensures g.Adjacent(i, i + 1) && g.Adjacent(i + 1, i) && i in g.nodes && i + 1 in g.nodes
  {
    HopIn(bgp, i);
    assert LinkedBy(bgp[i], i, i + 1) && LinkedBy(bgp[i], i + 1, i);
  }

  lemma OnlyNextTo(g: Graph, bgp: Patterns, a: nat, b: nat)
    requires IsPath(bgp) && IsJoinGraph(g, bgp) && g.Adjacent(a, b)
    ensures a == b + 1 || b == a + 1
  {
    var i :| 0 <= i < |bgp| && LinkedBy(bgp[i], a, b);
  }

  ghost predicate Between(variables: set<nat>, lo: nat, hi: nat) {
    forall v: nat :: v in variables <==> lo <= v <= hi
  }

  lemma BetweenUnion(a: set<nat>, b: set<nat>)
    requires Between(a, 0, 2) && Between(b, 2, 4)
    ensures Between(a + b, 0, 4)
  {
  }

  lemma PartAllowed(g: Graph, bgp: Patterns, part: Shape, a: nat)
    requires IsPath(bgp) && IsJoinGraph(g, bgp) && IsPart(part, a) && a + 2 <= LENGTH
    ensures Allowed(g, part, true) && Between(part.Vars(), a, a + 2) && PairsSingle(bgp, part)
  {
    NextTo(g, bgp, a);
    NextTo(g, bgp, a + 1);
    assert part.sub.Vars() == {a, a + 1};
  }

  lemma SplitAllowed(g: Graph, bgp: Patterns, small: set<nat>, other: set<nat>)
    requires IsPath(bgp) && IsJoinGraph(g, bgp) && Between(small, 0, 2) && Between(other, 2, 4)
    ensures AllowedSplit(g, small, other)
  {
    var all := small + other;
    assert small == {0, 1, 2} && all == {0, 1, 2, 3, 4};
    var rest := all - small;
    assert rest == {3, 4};
    NextTo(g, bgp, 2);
    forall x | x in JoinNodesOf(g, small, rest) ensures x == 2 {
      var y :| y in rest && g.Adjacent(y, x);
      OnlyNextTo(g, bgp, y, x);
    }
    assert 3 in rest && g.Adjacent(3, 2);
    assert JoinNodesOf(g, small, rest) == {2};
  }

  lemma JoinAllowed(g: Graph, bgp: Patterns, join: Shape)
    requires IsPath(bgp) && IsJoinGraph(g, bgp) && join.Join? && IsPart(join.small, 0) && IsPart(join.other, 2)
    ensures Allowed(g, join, true) && PairsSingle(bgp, join) && Between(join.Vars(), 0, LENGTH - 1)
  {
    PartAllowed(g, bgp, join.small, 0);
    PartAllowed(g, bgp, join.other, 2);
    SplitAllowed(g, bgp, join.small.Vars(), join.other.Vars());
    BetweenUnion(join.small.Vars(), join.other.Vars());
  }

  lemma LastAllowed(g: Graph, bgp: Patterns, shape: Shape)
    requires shape.Extend? && Allowed(g, shape.sub, true) && PairsSingle(bgp, shape.sub)
    requires shape.v in g.nodes && shape.v !in shape.sub.Vars() && g.Touches(shape.sub.Vars(), shape.v)
    ensures Allowed(g, shape, true) && PairsSingle(bgp, shape) && shape.Vars() == shape.sub.Vars() + {shape.v}
  {
  }

  lemma AllOfThePath(variables: set<nat>, found: set<nat>)
    requires Between(variables, 0, LENGTH) && Between(found, 0, LENGTH - 1)
    ensures found + {LENGTH} == variables
  {
  }

  lemma PathAllowed(g: Graph, bgp: Patterns, shape: Shape)
    requires IsPath(bgp) && IsJoinGraph(g, bgp) && IsPathShape(shape)
    ensures Allowed(g, shape, true) && PairsSingle(bgp, shape) && shape.Vars() == SoVars(bgp)
  {
    JoinAllowed(g, bgp, shape.sub);
    NextTo(g, bgp, LENGTH - 1);
    assert LENGTH - 1 in shape.sub.Vars() && g.Touches(shape.sub.Vars(), shape.v);
    LastAllowed(g, bgp, shape);
    PathVars(bgp);
    AllOfThePath(SoVars(bgp), shape.sub.Vars());
  }

  lemma PathCaches(env: Env, bgp: Patterns)
    requires IsPath(bgp) && HasOneTriple(env, bgp)
    ensures EnvFits(env, bgp) && CachesFit(env, bgp, [], map[])
  {
    PathOk(bgp);
  }

  lemma PathPlanned(env: Env, g: Graph, bgp: Patterns, shape: Shape)
    requires IsPath(bgp) && IsJoinGraph(g, bgp) && IsPathShape(shape) && HasOneTriple(env, bgp)
    ensures Planned(env, bgp, [], map[], g, shape)
  {
    PathAllowed(g, bgp, shape);
    PathCaches(env, bgp);
  }

  /** No path of two edges, so the small part has no solutions. */
  lemma NoTwoHops(env: Env, g: Graph, bgp: Patterns, part: Shape)
    requires IsPath(bgp) && IsJoinGraph(g, bgp) && HasOneTriple(env, bgp) && IsPart(part, 0) && PairsSingle(bgp, part)
    ensures !Solvable(env, TreeOf(bgp, false, part))
  {
    var tree := TreeOf(bgp, false, part);
    PathOk(bgp);
    PartAllowed(g, bgp, part, 0);
    TreeConstraints(bgp, g, false, part);
    HopIn(bgp, 0);
    HopIn(bgp, 1);
    assert PatternConstraint(Hop(0)) in InsideConstraints(bgp, part.Vars());
    assert PatternConstraint(Hop(1)) in InsideConstraints(bgp, part.Vars());
    forall mu ensures !IsSolution(env, tree, mu) {
      PatternHolds(env.g, Hop(0), mu);
      PatternHolds(env.g, Hop(1), mu);
    }
  }

  lemma PathLost(env: Env, g: Graph, bgp: Patterns, shape: Shape)
    requires IsPath(bgp) && IsJoinGraph(g, bgp) && HasOneTriple(env, bgp) && IsPathShape(shape) && PairsSingle(bgp, shape)
    ensures ReadsLost(env, TreeOf(bgp, false, shape))
  {
    NoTwoHops(env, g, bgp, shape.sub.small);
    assert LosesColumns(env, TreeOf(bgp, false, shape.sub));
  }

  /** Such a query, store and plan exist: they are these. */
  lemma PathInput() returns (env: Env, bgp: Patterns, shape: Shape)
    ensures IsPath(bgp) && HasOneTriple(env, bgp) && IsPathShape(shape)
  {
    bgp := [Hop(0), Hop(1), Hop(2), Hop(3), Hop(4)];
    env := Env({Triple(10, ONLY_PREDICATE, 11)}, map[], map v | v in SoVars(bgp) :: GetOccurPosition(bgp, v), {10, 11}, {}, {ONLY_PREDICATE});
    shape := Extend(Join(Extend(Extend(Scan(0), 1), 2), Extend(Extend(Scan(2), 3), 4)), LENGTH);
  }

  /** The plan is one the search may choose for the query, and whatever its execution returns, it has read a missing column. */
  lemma SlipHappens(env: Env, g: Graph, bgp: Patterns, shape: Shape, outcome: BF.Outcome, t: BF.Table)
    requires IsPath(bgp) && HasOneTriple(env, bgp) && IsJoinGraph(g, bgp) && IsPathShape(shape)
    ensures Planned(env, bgp, [], map[], g, shape)
    ensures BF.Answers(env, TreeOf(bgp, false, shape), outcome, t) ==> outcome.ReadsMissingColumn?
  {
    PathPlanned(env, g, bgp, shape);
    PathLost(env, g, bgp, shape);
    var tree := TreeOf(bgp, false, shape);
    TreeFitsShape(env, bgp, g, false, shape);
    TreeVars(bgp, false, shape);
    if BF.Answers(env, tree, outcome, t) {
      PlanExecutionMeaning(env, tree, outcome, t);
    }
  }
}
