/**
 Candidate lists before planning: from the edges to constants, and optionally from the predicates of
 other edges. They take part in the meaning of a query, because edges to constants enter only here.
 */
module CandidateFilters {
  import opened Rdf
  import opened TableOperator
  import opened StepSpec
  import opened ExecutorFilter
  import opened BasicGraphPattern
  import opened PlanTreeBuilder

  function ConstEntries(list: seq<SoEdge>): seq<SoEdge> {
    if list == [] then [] else
      var last := list[|list| - 1];
      ConstEntries(list[..|list| - 1]) + (if last.neiConst then [last] else [])
  }

  lemma {:induction false} InConstEntries(list: seq<SoEdge>, e: SoEdge)
    ensures e in ConstEntries(list) <==> e in list && e.neiConst
  {
    if list != [] {
      InConstEntries(list[..|list| - 1], e);
      assert list == list[..|list| - 1] + [list[|list| - 1]];
    }
  }

  /** An edge that narrows a variable down using constants only, and the pattern it comes from. */
  predicate FiltersBy(t: TriplePattern, v: nat, x: Edge) {
    || (!t.oConst && t.o == v && t.sConst && x == EdgeFor(t, SP2O))
    || (!t.sConst && t.s == v && t.oConst && x == EdgeFor(t, PO2S))
    || (!t.oConst && t.o == v && !t.sConst && x == EdgeFor(t, P2O))
    || (!t.sConst && t.s == v && !t.oConst && x == EdgeFor(t, P2S))
  }

  ghost predicate FilterEdge(bgp: Patterns, v: nat, x: Edge) {
    exists t :: t in bgp && FiltersBy(t, v, x)
  }

  ghost predicate FilterFeed(bgp: Patterns, f: FeedOneNode) {
    forall x :: x in f.edges ==> FilterEdge(bgp, f.nodeToJoin, x)
  }

  /** Every edge to a constant is among the filters of its variable. */
  ghost predicate ConstantsFiltered(bgp: Patterns, feeds: seq<FeedOneNode>) {
    forall t, v :: t in bgp && !t.Joins() && t.About(v) ==> exists f :: f in feeds && f.nodeToJoin == v && ConstantEdge(t) in f.edges
  }

  function ConstantEdge(t: TriplePattern): Edge {
    EdgeFor(t, if t.sConst then SP2O else PO2S)
  }

  ghost predicate ToConstant(bgp: Patterns, v: nat, x: Edge) {
    exists t :: t in bgp && !t.Joins() && t.About(v) && x == ConstantEdge(t)
  }

  ghost predicate FeedsOk(bgp: Patterns, feeds: seq<FeedOneNode>) {
    (forall f :: f in feeds ==> FilterFeed(bgp, f)) && ConstantsFiltered(bgp, feeds)
  }

  /** The edges of one variable to constants, and no others. */
  method FilterNodeOnConstantEdge(bgp: Patterns, v: nat) returns (feed: FeedOneNode)
    requires QueryOk(bgp)
    ensures feed.nodeToJoin == v && FilterFeed(bgp, feed)
    ensures forall x :: x in feed.edges ==> ToConstant(bgp, v, x)
    ensures forall t :: t in bgp && !t.Joins() && t.About(v) ==> ConstantEdge(t) in feed.edges
  {
    var list := SoEdges(bgp, v);
    var edges: seq<Edge> := [];
    var i := 0;
    while i < |list|
      invariant 0 <= i <= |list|
      invariant forall x :: x in edges ==> FilterEdge(bgp, v, x) && ToConstant(bgp, v, x)
      invariant forall k :: 0 <= k < i && list[k].neiConst ==> list[k].index < |bgp| && EntryEdge(bgp, list[k]) in edges
    {
      InSoEdges(bgp, v, list[i]);
      if list[i].neiConst {
        var t := bgp[list[i].index];
        assert t in bgp && FiltersBy(t, v, EntryEdge(bgp, list[i]));
        assert !t.Joins() && t.About(v) && EntryEdge(bgp, list[i]) == ConstantEdge(t);
        edges := edges + [EntryEdge(bgp, list[i])];
      }
      i := i + 1;
    }
    feed := FeedOneNode(v, true, edges);
    forall t | t in bgp && !t.Joins() && t.About(v) ensures ConstantEdge(t) in edges {
      var k :| 0 <= k < |bgp| && bgp[k] == t;
      var e := if t.sConst then SoEdge(k, true, t.s, true) else SoEdge(k, false, t.o, true);
      assert e in EdgesOfPattern(t, k, v);
      InSoEdges(bgp, v, e);
      assert EntryEdge(bgp, e) == ConstantEdge(t);
    }
  }

  /** The constant filters of all variables that have any. */
  method OnlyConstFilter(bgp: Patterns, variables: seq<nat>) returns (feeds: seq<FeedOneNode>)
    requires QueryOk(bgp) && Elements(variables) == SoVars(bgp)
    ensures FeedsOk(bgp, feeds)
  {
    feeds := [];
    var i := 0;
    while i < |variables|
      invariant 0 <= i <= |variables|
      invariant forall f :: f in feeds ==> FilterFeed(bgp, f)
      invariant forall t, v :: t in bgp && !t.Joins() && t.About(v) && v in variables[..i] ==>
                  exists f :: f in feeds && f.nodeToJoin == v && ConstantEdge(t) in f.edges
    {
      var feed := FilterNodeOnConstantEdge(bgp, variables[i]);
      if feed.edges != [] {
        feeds := feeds + [feed];
        assert feed in feeds;
      }
      i := i + 1;
    }
    forall t, v | t in bgp && !t.Joins() && t.About(v) ensures v in variables[..i] {
      PatternVars(bgp, t);
      assert v in Elements(variables);
    }
  }

  /** Extra filters on the predicates of edges between variables; which ones is left to size heuristics. */
  method Completecandidate(bgp: Patterns, variables: seq<nat>) returns (feeds: seq<FeedOneNode>)
    requires QueryOk(bgp)
    ensures forall f :: f in feeds ==> FilterFeed(bgp, f)
  {
    feeds := [];
    var i := 0;
    while i < |variables|
      invariant forall f :: f in feeds ==> FilterFeed(bgp, f)
    {
      var feed := PredicateFilters(bgp, variables[i]);
      if feed.edges != [] {
        feeds := feeds + [feed];
      }
      i := i + 1;
    }
  }

  method PredicateFilters(bgp: Patterns, v: nat) returns (feed: FeedOneNode)
    requires QueryOk(bgp)
    ensures feed.nodeToJoin == v && FilterFeed(bgp, feed)
  {
    var list := SoEdges(bgp, v);
    var edges: seq<Edge> := [];
    var i := 0;
    while i < |list|
      invariant 0 <= i <= |list|
      invariant forall x :: x in edges ==> FilterEdge(bgp, v, x)
    {
      InSoEdges(bgp, v, list[i]);
      var selectiveEnough: bool := *;
      if !list[i].neiConst && selectiveEnough {
        var t := bgp[list[i].index];
        var x := EdgeFor(t, if list[i].edgeIn then P2O else P2S);
        assert t in bgp && FiltersBy(t, v, x);
        edges := edges + [x];
      }
      i := i + 1;
    }
    feed := FeedOneNode(v, true, edges);
  }

  lemma FilterReadsNothing(bgp: Patterns, v: nat, x: Edge)
    requires QueryOk(bgp) && FilterEdge(bgp, v, x)
    ensures x.info.joinMethod.OneNode() && x.Reads() == {} && !x.constant.FilteredIsConstant(x.info) && x.info.GetVarToFilter() == v
  {
  }

  /** What the filters leave of each variable's candidates. */
  ghost predicate CachedBy(g: Store, feeds: seq<FeedOneNode>, before: map<nat, seq<nat>>, caches: map<nat, seq<nat>>)
    requires forall f :: f in feeds ==> AllReadable(f.edges, map[], [])
  {
    && (forall v :: v in caches <==> v in before || exists f :: f in feeds && f.nodeToJoin == v && f.edges != [])
    && (forall v :: v in caches ==> StrictlyIncreasing(caches[v]))
    && (forall v, x :: v in caches ==> (x in caches[v] <==> Passes(g, feeds, before, v, x)))
  }

  ghost predicate Passes(g: Store, feeds: seq<FeedOneNode>, before: map<nat, seq<nat>>, v: nat, x: nat)
    requires forall f :: f in feeds ==> AllReadable(f.edges, map[], [])
  {
    (v in before ==> x in before[v]) && forall f :: f in feeds && f.nodeToJoin == v ==> OnAllLists(g, f.edges, map[], [], x)
  }

  method RunFilter(g: Store, bgp: Patterns, f: FeedOneNode, caches: IDCaches, ghost earlier: seq<FeedOneNode>, ghost before: map<nat, seq<nat>>)
    requires QueryOk(bgp) && FilterFeed(bgp, f)
    requires (forall k :: k in earlier ==> AllReadable(k.edges, map[], [])) && CachedBy(g, earlier, before, caches.lists)
    modifies caches
    ensures AllReadable(f.edges, map[], [])
    ensures CachedBy(g, earlier + [f], before, caches.lists)
  {
    ghost var current := caches.lists;
    FeedReadable(bgp, f);
    CacheConstantCandidates(g, f, caches);
    OneMoreFilter(g, earlier, f, before, current, caches.lists);
  }

  /** Runs the filters one after the other. */
  method RunFilters(g: Store, bgp: Patterns, feeds: seq<FeedOneNode>, caches: IDCaches)
    requires QueryOk(bgp) && forall f :: f in feeds ==> FilterFeed(bgp, f)
    requires forall v :: v in caches.lists ==> StrictlyIncreasing(caches.lists[v])
    modifies caches
    ensures forall f :: f in feeds ==> AllReadable(f.edges, map[], [])
    ensures CachedBy(g, feeds, old(caches.lists), caches.lists)
  {
    FeedsReadable(bgp, feeds);
    ghost var before := caches.lists;
    var i := 0;
    while i < |feeds|
      invariant 0 <= i <= |feeds|
      invariant CachedBy(g, feeds[..i], before, caches.lists)
    {
      RunFilter(g, bgp, feeds[i], caches, feeds[..i], before);
      assert feeds[..i + 1] == feeds[..i] + [feeds[i]];
      i := i + 1;
    }
    assert feeds[..i] == feeds;
  }

  lemma FeedReadable(bgp: Patterns, f: FeedOneNode)
    requires QueryOk(bgp) && FilterFeed(bgp, f)
    ensures forall x :: x in f.edges ==> x.info.joinMethod.OneNode() && x.Reads() == {}
    ensures AllReadable(f.edges, map[], [])
  {
    forall x | x in f.edges ensures x.info.joinMethod.OneNode() && x.Reads() == {} {
      FilterReadsNothing(bgp, f.nodeToJoin, x);
    }
  }

  lemma FeedsReadable(bgp: Patterns, feeds: seq<FeedOneNode>)
    requires QueryOk(bgp) && forall f :: f in feeds ==> FilterFeed(bgp, f)
    ensures forall f :: f in feeds ==> AllReadable(f.edges, map[], [])
  {
    forall f | f in feeds ensures AllReadable(f.edges, map[], []) {
      FeedReadable(bgp, f);
    }
  }

  lemma OneMoreFilter(g: Store, feeds: seq<FeedOneNode>, f: FeedOneNode, before: map<nat, seq<nat>>, current: map<nat, seq<nat>>, after: map<nat, seq<nat>>)
    requires (forall f :: f in feeds ==> AllReadable(f.edges, map[], [])) && AllReadable(f.edges, map[], [])
    requires CachedBy(g, feeds, before, current)
    requires f.edges == [] ==> after == current
    requires after.Keys == current.Keys + (if f.edges == [] then {} else {f.nodeToJoin})
    requires forall v :: v in current && v != f.nodeToJoin ==> after[v] == current[v]
    requires forall v :: v in after ==> StrictlyIncreasing(after[v])
    requires f.edges != [] ==> forall x :: x in after[f.nodeToJoin] <==> CachedAfter(g, f.edges, current, f.nodeToJoin, x)
    ensures CachedBy(g, feeds + [f], before, after)
  {
    assert forall k :: k in feeds + [f] <==> k in feeds || k == f;
    forall v, x | v in after ensures x in after[v] <==> Passes(g, feeds + [f], before, v, x) {
      OneMorePass(g, feeds, f, before, v, x);
      if v == f.nodeToJoin && f.edges != [] {
        if v !in current {
          assert Passes(g, feeds, before, v, x) by {
            NeverFiltered(g, feeds, before, current, v, x);
          }
        }
      }
    }
    forall v ensures v in after <==> v in before || exists k :: k in feeds + [f] && k.nodeToJoin == v && k.edges != [] {
      if f.edges != [] && v == f.nodeToJoin {
        assert f in feeds + [f];
      }
    }
  }

  lemma OneMorePass(g: Store, feeds: seq<FeedOneNode>, f: FeedOneNode, before: map<nat, seq<nat>>, v: nat, x: nat)
    requires (forall f :: f in feeds ==> AllReadable(f.edges, map[], [])) && AllReadable(f.edges, map[], [])
    ensures Passes(g, feeds + [f], before, v, x) <==>
              Passes(g, feeds, before, v, x) && (f.nodeToJoin == v ==> OnAllLists(g, f.edges, map[], [], x))
  {
    assert forall k :: k in feeds + [f] <==> k in feeds || k == f;
  }

  lemma NeverFiltered(g: Store, feeds: seq<FeedOneNode>, before: map<nat, seq<nat>>, current: map<nat, seq<nat>>, v: nat, x: nat)
    requires forall f :: f in feeds ==> AllReadable(f.edges, map[], [])
    requires CachedBy(g, feeds, before, current) && v !in current
    ensures Passes(g, feeds, before, v, x)
  {
    forall f | f in feeds && f.nodeToJoin == v ensures f.edges == [] {
    }
  }
}
