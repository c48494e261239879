/**
 The basic graph pattern of a query: triple patterns over variables and constants, the edge list of
 each variable, and the join graph they form.
 */
module BasicGraphPattern {
  import opened Rdf
  import opened Semantics
  import opened JoinGraph

  datatype TriplePattern = TriplePattern(s: nat, sConst: bool, p: nat, pConst: bool, o: nat, oConst: bool) {
    predicate Joins() {
      !sConst && !oConst
    }

    predicate About(v: nat) {
      (!sConst && s == v) || (!oConst && o == v)
    }

    predicate Within(variables: set<nat>) {
      Joins() && s in variables && o in variables
    }
  }

  /** One entry of a variable's edge list: which pattern, whether the variable is its object, and what is at the other end. */
  datatype SoEdge = SoEdge(index: nat, edgeIn: bool, nei: nat, neiConst: bool)

  type Patterns = seq<TriplePattern>

  /** What one pattern adds to the edge list of a variable. */
  function EdgesOfPattern(t: TriplePattern, index: nat, v: nat): seq<SoEdge> {
    (if !t.sConst && t.s == v then [SoEdge(index, false, t.o, t.oConst)] else [])
    + (if !t.oConst && t.o == v then [SoEdge(index, true, t.s, t.sConst)] else [])
  }

  function SoEdges(bgp: Patterns, v: nat): seq<SoEdge> {
    if bgp == [] then [] else SoEdges(bgp[..|bgp| - 1], v) + EdgesOfPattern(bgp[|bgp| - 1], |bgp| - 1, v)
  }

  /** Variables in subject or object position. */
  function SoVars(bgp: Patterns): set<nat> {
    (set t | t in bgp && !t.sConst :: t.s) + (set t | t in bgp && !t.oConst :: t.o)
  }

  /** Adds one pattern to the lists of its subject and of its object variable. */
  method AddPattern(edges: map<nat, seq<SoEdge>>, t: TriplePattern, i: nat) returns (after: map<nat, seq<SoEdge>>)
    requires (!t.sConst ==> t.s in edges) && (!t.oConst ==> t.o in edges)
    ensures after.Keys == edges.Keys && forall v :: v in edges ==> after[v] == edges[v] + EdgesOfPattern(t, i, v)
  {
    after := edges;
    if !t.sConst {
      after := after[t.s := after[t.s] + [SoEdge(i, false, t.o, t.oConst)]];
    }
    if !t.oConst {
      after := after[t.o := after[t.o] + [SoEdge(i, true, t.s, t.sConst)]];
    }
  }

  /** Builds every variable's edge list in one pass over the patterns. */
  method BuildEdgeInfo(bgp: Patterns) returns (edges: map<nat, seq<SoEdge>>)
    ensures edges == map v | v in SoVars(bgp) :: SoEdges(bgp, v)
  {
    edges := map v | v in SoVars(bgp) :: [];
    var i := 0;
    while i < |bgp|
      invariant 0 <= i <= |bgp|
      invariant edges.Keys == SoVars(bgp)
      invariant forall v :: v in edges ==> edges[v] == SoEdges(bgp[..i], v)
    {
      var t := bgp[i];
      PatternVars(bgp, t);
      edges := AddPattern(edges, t, i);
      forall v | v in edges ensures edges[v] == SoEdges(bgp[..i + 1], v) {
        SoEdgesSnoc(bgp, i, v);
      }
      i := i + 1;
    }
    assert bgp[..i] == bgp;
  }

  lemma PatternVars(bgp: Patterns, t: TriplePattern)
    requires t in bgp
    ensures !t.sConst ==> t.s in SoVars(bgp)
    ensures !t.oConst ==> t.o in SoVars(bgp)
  {
  }

  lemma SoEdgesSnoc(bgp: Patterns, i: nat, v: nat)
    requires i < |bgp|
    ensures SoEdges(bgp[..i + 1], v) == SoEdges(bgp[..i], v) + EdgesOfPattern(bgp[i], i, v)
  {
    assert bgp[..i + 1][..i] == bgp[..i];
  }

  lemma EdgeIndex(t: TriplePattern, index: nat, v: nat, e: SoEdge)
    requires e in EdgesOfPattern(t, index, v)
    ensures e.index == index
  {
  }

  /** An edge list holds one entry for each end of a pattern that is the variable. */
  lemma {:induction false} InSoEdges(bgp: Patterns, v: nat, e: SoEdge)
    ensures e in SoEdges(bgp, v) <==> e.index < |bgp| && e in EdgesOfPattern(bgp[e.index], e.index, v)
  {
    if bgp != [] {
      var last := |bgp| - 1;
      InSoEdges(bgp[..last], v, e);
      assert e in SoEdges(bgp, v) <==> e in SoEdges(bgp[..last], v) || e in EdgesOfPattern(bgp[last], last, v);
      if e in EdgesOfPattern(bgp[last], last, v) {
        EdgeIndex(bgp[last], last, v, e);
      }
    }
  }

  function VarNeighbours(edges: seq<SoEdge>): seq<nat> {
    if edges == [] then [] else (if edges[0].neiConst then [] else [edges[0].nei]) + VarNeighbours(edges[1..])
  }

  function JoinGraphOf(bgp: Patterns): Graph {
    Graph(SoVars(bgp), map v | v in SoVars(bgp) :: VarNeighbours(SoEdges(bgp, v)))
  }

  lemma {:induction false} InVarNeighbours(edges: seq<SoEdge>, v: nat)
    ensures v in VarNeighbours(edges) <==> exists e :: e in edges && !e.neiConst && e.nei == v
  {
    if edges != [] {
      InVarNeighbours(edges[1..], v);
      assert edges == [edges[0]] + edges[1..];
    }
  }

  /** Some pattern joins the two variables. */
  ghost predicate Links(bgp: Patterns, a: nat, b: nat) {
    exists i :: 0 <= i < |bgp| && LinkedBy(bgp[i], a, b)
  }

  predicate LinkedBy(t: TriplePattern, a: nat, b: nat) {
    t.Joins() && ((t.s == a && t.o == b) || (t.s == b && t.o == a))
  }

  /** Two variables are adjacent in the join graph exactly if a pattern joins them. */
  lemma AdjacentIffLinked(bgp: Patterns, a: nat, b: nat)
    ensures JoinGraphOf(bgp).Adjacent(a, b) <==> Links(bgp, a, b)
  {
    var edges := SoEdges(bgp, a);
    InVarNeighbours(edges, b);
    if JoinGraphOf(bgp).Adjacent(a, b) {
      var e :| e in edges && !e.neiConst && e.nei == b;
      InSoEdges(bgp, a, e);
      assert LinkedBy(bgp[e.index], a, b);
    }
    if Links(bgp, a, b) {
      var i :| 0 <= i < |bgp| && LinkedBy(bgp[i], a, b);
      var e := if bgp[i].s == a && bgp[i].o == b then SoEdge(i, false, b, false) else SoEdge(i, true, b, false);
      assert e in EdgesOfPattern(bgp[i], i, a);
      InSoEdges(bgp, a, e);
      assert bgp[i] in bgp;
    }
  }

  /** The join graph by its properties: the variables, and who is joined to whom. */
  ghost predicate IsJoinGraph(g: Graph, bgp: Patterns) {
    && g.nodes == SoVars(bgp) && g.Valid()
    && forall a, b {:trigger g.Adjacent(a, b)} :: g.Adjacent(a, b) <==> Links(bgp, a, b)
  }

  lemma JoinGraphIs(bgp: Patterns)
    ensures IsJoinGraph(JoinGraphOf(bgp), bgp)
  {
    var g := JoinGraphOf(bgp);
    forall a, b ensures g.Adjacent(a, b) <==> Links(bgp, a, b) {
      AdjacentIffLinked(bgp, a, b);
    }
    forall a, b | g.Adjacent(a, b) ensures g.Adjacent(b, a) {
      var i :| 0 <= i < |bgp| && LinkedBy(bgp[i], a, b);
      assert LinkedBy(bgp[i], b, a);
    }
  }

  /**
   The queries the model speaks about: constant predicates, at least one variable per pattern, and no
   pattern whose subject and object are the same variable.
   */
  predicate QueryOk(bgp: Patterns) {
    forall t :: t in bgp ==> t.pConst && !(t.sConst && t.oConst) && (t.Joins() ==> t.s != t.o)
  }

  /** The condition a pattern puts on assignments. */
  function PatternConstraint(t: TriplePattern): Constraint {
    Constraint(t.s, t.sConst, true, t.p, t.pConst, true, t.o, t.oConst, true)
  }

  ghost function InsideConstraints(bgp: Patterns, variables: set<nat>): set<Constraint> {
    set t | t in bgp && t.Within(variables) :: PatternConstraint(t)
  }

  /** A solution over all variables: every pattern is a stored triple, and given candidates are respected. */
  ghost predicate IsAnswer(g: Store, bgp: Patterns, given: map<nat, seq<nat>>, mu: Assignment) {
    && mu.Keys == SoVars(bgp)
    && (forall t :: t in bgp ==> Triple(ValueOf(t.s, t.sConst, mu), ValueOf(t.p, t.pConst, mu), ValueOf(t.o, t.oConst, mu)) in g)
    && (forall v :: v in mu && v in given ==> mu[v] in given[v])
  }

  lemma PatternHolds(g: Store, t: TriplePattern, mu: Assignment)
    ensures Holds(g, PatternConstraint(t), mu) <==>
              Triple(ValueOf(t.s, t.sConst, mu), ValueOf(t.p, t.pConst, mu), ValueOf(t.o, t.oConst, mu)) in g
  {
    var triple := Triple(ValueOf(t.s, t.sConst, mu), ValueOf(t.p, t.pConst, mu), ValueOf(t.o, t.oConst, mu));
    assert Fits(PatternConstraint(t), mu, triple);
    assert forall other :: Fits(PatternConstraint(t), mu, other) ==> other == triple;
  }
}
