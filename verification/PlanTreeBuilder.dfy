/**
 Building the operations of a plan out of the query's edge lists: a scan, one more node, a pair of
 nodes over one edge, or the join of two plans.
 */
module PlanTreeBuilder {
  import opened Rdf
  import opened TableOperator
  import opened Semantics
  import opened BasicGraphPattern
  import opened PlanCost
  import BF = BreadthFirst

  function EdgeFor(t: TriplePattern, m: JoinMethod): Edge {
    Edge(EdgeInfo(t.s, t.p, t.o, m), EdgeConstantInfo(t.sConst, t.pConst, t.oConst))
  }

  /** The edge-list entries whose other end is already joined. */
  function JoinedEntries(list: seq<SoEdge>, joined: set<nat>): seq<SoEdge> {
    if list == [] then [] else
      var last := list[|list| - 1];
      JoinedEntries(list[..|list| - 1], joined) + (if !last.neiConst && last.nei in joined then [last] else [])
  }

  function EntryEdge(bgp: Patterns, e: SoEdge): Edge
    requires e.index < |bgp|
  {
    EdgeFor(bgp[e.index], if e.edgeIn then SP2O else PO2S)
  }

  function EntryEdges(bgp: Patterns, list: seq<SoEdge>): seq<Edge>
    requires forall e :: e in list ==> e.index < |bgp|
  {
    seq(|list|, i requires 0 <= i < |list| => assert list[i] in list; EntryEdge(bgp, list[i]))
  }

  lemma EntriesHaveIndex(bgp: Patterns, v: nat, joined: set<nat>)
    ensures forall e :: e in JoinedEntries(SoEdges(bgp, v), joined) ==> e.index < |bgp|
  {
    forall e | e in JoinedEntries(SoEdges(bgp, v), joined) ensures e.index < |bgp| {
      InJoinedEntries(SoEdges(bgp, v), joined, e);
      InSoEdges(bgp, v, e);
    }
  }

  lemma {:induction false} InJoinedEntries(list: seq<SoEdge>, joined: set<nat>, e: SoEdge)
    ensures e in JoinedEntries(list, joined) <==> e in list && !e.neiConst && e.nei in joined
  {
    if list != [] {
      InJoinedEntries(list[..|list| - 1], joined, e);
      assert list == list[..|list| - 1] + [list[|list| - 1]];
    }
  }

  /** The edges of the step that joins a node on top of the nodes already joined. */
  function ExtendEdges(bgp: Patterns, joined: set<nat>, next: nat): seq<Edge> {
    EntriesHaveIndex(bgp, next, joined);
    EntryEdges(bgp, JoinedEntries(SoEdges(bgp, next), joined))
  }

  /** The patterns that join two variables, as the first variable's edge list shows them. */
  function LinkEntries(bgp: Patterns, a: nat, b: nat): seq<SoEdge> {
    JoinedEntries(SoEdges(bgp, a), {b})
  }

  /** Every pair of a shape is joined by a single pattern. */
  predicate PairsSingle(bgp: Patterns, shape: Shape) {
    match shape
    case Scan(_) => true
    case Extend(sub, _) => PairsSingle(bgp, sub)
    case P2so(a, b) => |LinkEntries(bgp, a, b)| == 1
    case Join(small, other) => PairsSingle(bgp, small) && PairsSingle(bgp, other)
  }

  function PairStep(t: TriplePattern): StepOperation {
    JoinTwoNodes(FeedTwoNode(t.s, t.o, Edge(EdgeInfo(t.s, t.p, t.o, P2SO), EdgeConstantInfo(false, true, false))), false)
  }

  /** The plan tree of a shape. */
  function TreeOf(bgp: Patterns, distinct: bool, shape: Shape): BF.PlanTree
    requires PairsSingle(bgp, shape)
  {
    match shape
    case Scan(v) => BF.Leaf(JoinNode(FeedOneNode(v, true, []), distinct, false))
    case Extend(sub, v) =>
      BF.Unary(JoinNode(FeedOneNode(v, true, ExtendEdges(bgp, sub.Vars(), v)), distinct, false), TreeOf(bgp, distinct, sub))
    case P2so(a, b) =>
      EntriesHaveIndex(bgp, a, {b});
      BF.Leaf(PairStep(bgp[LinkEntries(bgp, a, b)[0].index]))
    case Join(small, other) =>
      BF.Binary(JoinTable(SortedIds(small.Vars() * other.Vars()), false), TreeOf(bgp, distinct, small), TreeOf(bgp, distinct, other))
  }

  class PlanTree {
    var rootNode: BF.PlanTree
    var alreadySoVar: seq<nat>

    /** The plan that scans one variable. */
    constructor Scan(first: nat, bgp: Patterns, distinct: bool)
      ensures rootNode == TreeOf(bgp, distinct, Shape.Scan(first)) && alreadySoVar == [first]
    {
      rootNode := BF.Leaf(JoinNode(FeedOneNode(first, true, []), distinct, false));
      alreadySoVar := [first];
    }

    /** One more node on top of an earlier plan. */
    constructor ExtendByOneNode(last: PlanTree, bgp: Patterns, distinct: bool, next: nat, ghost sub: Shape)
      requires QueryOk(bgp) && PairsSingle(bgp, sub)
      requires last.rootNode == TreeOf(bgp, distinct, sub) && Elements(last.alreadySoVar) == sub.Vars()
      requires ExtendEdges(bgp, sub.Vars(), next) != []
      ensures rootNode == TreeOf(bgp, distinct, Extend(sub, next))
      ensures alreadySoVar == last.alreadySoVar + [next]
    {
      var edges := EdgesToJoin(bgp, next, last.alreadySoVar);
      var root := last.rootNode;
      if edges != [] {
        root := BF.Unary(JoinNode(FeedOneNode(next, true, edges), distinct, false), root);
      }
      rootNode, alreadySoVar := root, last.alreadySoVar + [next];
    }

    /** Two nodes over the one pattern that joins them. */
    constructor TwoNodes(node1: nat, node2: nat, bgp: Patterns, distinct: bool)
      requires QueryOk(bgp) && PairsSingle(bgp, P2so(node1, node2))
      ensures rootNode == TreeOf(bgp, distinct, P2so(node1, node2)) && alreadySoVar == [node1, node2]
    {
      var linked := LinkedEdges(bgp, node1, node2);
      EntriesHaveIndex(bgp, node1, {node2});
      rootNode := BF.Leaf(PairStep(bgp[linked[0].index]));
      alreadySoVar := [node1, node2];
    }

    /** The join of two plans on their common variables. */
    constructor BinaryJoin(left: PlanTree, right: PlanTree, bgp: Patterns, distinct: bool, joinNodes: set<nat>, ghost small: Shape, ghost other: Shape)
      requires PairsSingle(bgp, Join(small, other)) && joinNodes == small.Vars() * other.Vars()
      requires left.rootNode == TreeOf(bgp, distinct, small) && right.rootNode == TreeOf(bgp, distinct, other)
      ensures rootNode == TreeOf(bgp, distinct, Join(small, other))
      ensures Elements(alreadySoVar) == Elements(left.alreadySoVar) + Elements(right.alreadySoVar)
    {
      var already := Merge(left.alreadySoVar, right.alreadySoVar);
      alreadySoVar := already;
      rootNode := BF.Binary(JoinTable(SortedIds(joinNodes), false), left.rootNode, right.rootNode);
    }
  }

  function Elements(xs: seq<nat>): set<nat> {
    set x | x in xs
  }

  lemma ElementsSnoc(xs: seq<nat>, x: nat)
    ensures Elements(xs + [x]) == Elements(xs) + {x}
  {
  }

  method Merge(a: seq<nat>, b: seq<nat>) returns (r: seq<nat>)
    ensures Elements(r) == Elements(a) + Elements(b)
  {
    r := a;
    var i := 0;
    while i < |b|
      invariant 0 <= i <= |b|
      invariant Elements(r) == Elements(a) + Elements(b[..i])
    {
      assert b[..i + 1] == b[..i] + [b[i]];
      ElementsSnoc(b[..i], b[i]);
      ElementsSnoc(r, b[i]);
      if b[i] !in r {
        r := r + [b[i]];
      } else {
        assert b[i] in Elements(r);
      }
      i := i + 1;
    }
    assert b[..i] == b;
  }

  /** Walks the next node's edge list: skips edges to nodes not joined yet and edges to constants. */
  method EdgesToJoin(bgp: Patterns, next: nat, already: seq<nat>) returns (edges: seq<Edge>)
    requires QueryOk(bgp)
    ensures edges == ExtendEdges(bgp, Elements(already), next)
  {
    var list := SoEdges(bgp, next);
    ghost var joined := Elements(already);
    edges := [];
    var i := 0;
    EntriesHaveIndex(bgp, next, joined);
    PrefixesHaveIndex(bgp, next, joined);
    while i < |list|
      invariant 0 <= i <= |list|
      invariant forall e :: e in JoinedEntries(list[..i], joined) ==> e.index < |bgp|
      invariant edges == EntryEdges(bgp, JoinedEntries(list[..i], joined))
    {
      InSoEdges(bgp, next, list[i]);
      assert list[..i + 1][..i] == list[..i];
      if !list[i].neiConst && list[i].nei !in already {
      } else if list[i].neiConst {
      } else {
        edges := edges + [EntryEdge(bgp, list[i])];
      }
      i := i + 1;
    }
    assert list[..i] == list;
  }

  lemma PrefixesHaveIndex(bgp: Patterns, v: nat, joined: set<nat>)
    ensures forall i, e :: 0 <= i <= |SoEdges(bgp, v)| && e in JoinedEntries(SoEdges(bgp, v)[..i], joined) ==> e.index < |bgp|
  {
    forall i, e | 0 <= i <= |SoEdges(bgp, v)| && e in JoinedEntries(SoEdges(bgp, v)[..i], joined) ensures e.index < |bgp| {
      InJoinedEntries(SoEdges(bgp, v)[..i], joined, e);
      InSoEdges(bgp, v, e);
    }
  }

  /** The entries of the first node's edge list that lead to the second. */
  method LinkedEdges(bgp: Patterns, node1: nat, node2: nat) returns (linked: seq<SoEdge>)
    ensures linked == LinkEntries(bgp, node1, node2)
  {
    var list := SoEdges(bgp, node1);
    linked := [];
    var i := 0;
    while i < |list|
      invariant 0 <= i <= |list|
      invariant linked == JoinedEntries(list[..i], {node2})
    {
      assert list[..i + 1][..i] == list[..i];
      if !list[i].neiConst && list[i].nei == node2 {
        linked := linked + [list[i]];
      }
      i := i + 1;
    }
    assert list[..i] == list;
  }

  // ---- which patterns a step applies ----

  /** Whether a pattern joins the next node to one already joined. */
  predicate JoinsTo(t: TriplePattern, joined: set<nat>, next: nat) {
    t.Joins() && ((t.s == next && t.o in joined) || (t.o == next && t.s in joined))
  }

  lemma EntryOfPattern(bgp: Patterns, i: nat, joined: set<nat>, next: nat) returns (e: SoEdge)
    requires QueryOk(bgp) && next !in joined && i < |bgp| && JoinsTo(bgp[i], joined, next)
    ensures e in JoinedEntries(SoEdges(bgp, next), joined) && e.index == i
  {
    var t := bgp[i];
    e := if t.s == next then SoEdge(i, false, t.o, t.oConst) else SoEdge(i, true, t.s, t.sConst);
    assert e in EdgesOfPattern(t, i, next);
    InSoEdges(bgp, next, e);
    InJoinedEntries(SoEdges(bgp, next), joined, e);
  }

  lemma EntryMeaning(bgp: Patterns, joined: set<nat>, next: nat, e: SoEdge)
    requires QueryOk(bgp) && next !in joined && e in JoinedEntries(SoEdges(bgp, next), joined)
    ensures e.index < |bgp| && bgp[e.index] in bgp && JoinsTo(bgp[e.index], joined, next)
    ensures e.edgeIn <==> bgp[e.index].o == next
    ensures e.nei == (if e.edgeIn then bgp[e.index].s else bgp[e.index].o)
  {
    InJoinedEntries(SoEdges(bgp, next), joined, e);
    InSoEdges(bgp, next, e);
  }

  lemma InEntryEdges(bgp: Patterns, list: seq<SoEdge>, x: Edge)
    requires forall e :: e in list ==> e.index < |bgp|
    ensures x in EntryEdges(bgp, list) <==> exists e :: e in list && EntryEdge(bgp, e) == x
  {
    if e :| e in list && EntryEdge(bgp, e) == x {
      var i :| 0 <= i < |list| && list[i] == e;
      assert EntryEdges(bgp, list)[i] == x;
    }
  }

  /** The conditions a step adds are exactly those of the patterns that join the node to earlier ones. */
  lemma ExtendConstraints(bgp: Patterns, joined: set<nat>, next: nat)
    requires QueryOk(bgp) && next !in joined
    ensures InsideConstraints(bgp, joined + {next}) == InsideConstraints(bgp, joined) + ConstraintsOf(ExtendEdges(bgp, joined, next))
  {
    EntriesHaveIndex(bgp, next, joined);
    var list := JoinedEntries(SoEdges(bgp, next), joined);
    forall c | c in ConstraintsOf(ExtendEdges(bgp, joined, next)) ensures c in InsideConstraints(bgp, joined + {next}) {
      var x :| x in ExtendEdges(bgp, joined, next) && ConstraintOf(x) == c;
      InEntryEdges(bgp, list, x);
      var e :| e in list && EntryEdge(bgp, e) == x;
      EntryMeaning(bgp, joined, next, e);
      assert c == PatternConstraint(bgp[e.index]) && bgp[e.index].Within(joined + {next});
    }
    forall t | t in bgp && t.Within(joined + {next}) && !t.Within(joined)
      ensures PatternConstraint(t) in ConstraintsOf(ExtendEdges(bgp, joined, next))
    {
      var i :| 0 <= i < |bgp| && bgp[i] == t;
      assert JoinsTo(t, joined, next);
      var e := EntryOfPattern(bgp, i, joined, next);
      InEntryEdges(bgp, list, EntryEdge(bgp, e));
      assert ConstraintOf(EntryEdge(bgp, e)) == PatternConstraint(t);
    }
  }

  // ---- each pattern in exactly one step ----

  function IndicesInside(bgp: Patterns, variables: set<nat>): set<nat> {
    set i | 0 <= i < |bgp| && bgp[i].Within(variables)
  }

  /** The patterns of the step for a node: one edge each. */
  function StepIndices(bgp: Patterns, joined: set<nat>, next: nat): seq<nat> {
    var list := JoinedEntries(SoEdges(bgp, next), joined);
    seq(|list|, i requires 0 <= i < |list| => list[i].index)
  }

  lemma {:induction false} JoinedEntriesAppend(a: seq<SoEdge>, b: seq<SoEdge>, joined: set<nat>)
    ensures JoinedEntries(a + b, joined) == JoinedEntries(a, joined) + JoinedEntries(b, joined)
  {
    if b == [] {
      assert a + b == a;
    } else {
      var shorter, last := b[..|b| - 1], b[|b| - 1];
      assert (a + b)[..|a + b| - 1] == a + shorter;
      JoinedEntriesAppend(a, shorter, joined);
    }
  }

  ghost predicate IndexIncreasing(list: seq<SoEdge>, bound: nat) {
    (forall i :: 0 <= i < |list| ==> list[i].index < bound) && forall i, j :: 0 <= i < j < |list| ==> list[i].index < list[j].index
  }

  /** A pattern shows up at most once in an edge list, for no pattern has the same variable at both ends. */
  lemma {:induction false} EntriesIncreasing(bgp: Patterns, v: nat, joined: set<nat>)
    requires QueryOk(bgp)
    ensures IndexIncreasing(JoinedEntries(SoEdges(bgp, v), joined), |bgp|)
  {
    if bgp != [] {
      var shorter, t := bgp[..|bgp| - 1], bgp[|bgp| - 1];
      assert (forall u :: u in shorter ==> u in bgp) && t in bgp;
      var a, b := JoinedEntries(SoEdges(shorter, v), joined), JoinedEntries(EdgesOfPattern(t, |bgp| - 1, v), joined);
      EntriesIncreasing(shorter, v, joined);
      OneEntry(t, |bgp| - 1, v, joined);
      AppendLarger(a, b, |bgp| - 1);
      assert JoinedEntries(SoEdges(bgp, v), joined) == a + b by {
        JoinedEntriesAppend(SoEdges(shorter, v), EdgesOfPattern(t, |bgp| - 1, v), joined);
      }
    }
  }

  lemma AppendLarger(a: seq<SoEdge>, b: seq<SoEdge>, index: nat)
    requires IndexIncreasing(a, index) && (b == [] || (|b| == 1 && b[0].index == index))
    ensures IndexIncreasing(a + b, index + 1)
  {
  }

  lemma OneEntry(t: TriplePattern, index: nat, v: nat, joined: set<nat>)
    requires t.Joins() ==> t.s != t.o
    ensures var r := JoinedEntries(EdgesOfPattern(t, index, v), joined); r == [] || (|r| == 1 && r[0].index == index)
  {
    var list := EdgesOfPattern(t, index, v);
    if list != [] {
      assert list == [list[0]] && list[0].index == index && list[..0] == [];
      assert JoinedEntries(list[..0], joined) == [];
    }
  }

  /** The step for a node applies, each once, exactly the patterns that join it to earlier nodes: no earlier step has them. */
  lemma EachPatternInOneStep(bgp: Patterns, joined: set<nat>, next: nat)
    requires QueryOk(bgp) && next !in joined
    ensures StrictlyIncreasing(StepIndices(bgp, joined, next))
    ensures forall i :: i in StepIndices(bgp, joined, next) <==> i in IndicesInside(bgp, joined + {next}) - IndicesInside(bgp, joined)
    ensures |ExtendEdges(bgp, joined, next)| == |StepIndices(bgp, joined, next)|
  {
    EntriesHaveIndex(bgp, next, joined);
    EntriesIncreasing(bgp, next, joined);
    var list := JoinedEntries(SoEdges(bgp, next), joined);
    var indices := StepIndices(bgp, joined, next);
    forall i ensures i in indices <==> i in IndicesInside(bgp, joined + {next}) - IndicesInside(bgp, joined) {
      if i in indices {
        var k :| 0 <= k < |list| && list[k].index == i;
        EntryMeaning(bgp, joined, next, list[k]);
      }
      if i in IndicesInside(bgp, joined + {next}) - IndicesInside(bgp, joined) {
        var e := EntryOfPattern(bgp, i, joined, next);
        var k :| 0 <= k < |list| && list[k] == e;
        assert indices[k] == i;
      }
    }
  }
}
