/**
 The older join from start to end for a query without predicate variables: walk the core, lay out the
 records after the columns the walk has made, write them out.
 */
module OldJoinBasic {
  import opened Rdf
  import opened TableOperator
  import opened Semantics
  import opened ExactJoins
  import opened BasicGraphPattern
  import opened JoinGraph
  import opened PlanTreeBuilder
  import opened QueryAnswer
  import opened TableGrowth
  import opened OldJoin
  import opened OldJoinWalk
  import opened OldJoinOutput
  import opened OldJoinAnswer

  /** No other pattern leads to the same satellite. */
  ghost predicate OnlyPattern(bgp: Patterns, core: set<nat>, satellites: set<nat>, i: nat)
    requires i < |bgp|
  {
    forall j :: 0 <= j < |bgp| && j != i && ToSatellite(bgp[j], core, satellites) ==> OuterEnd(bgp[j], core) != OuterEnd(bgp[i], core)
  }

  /** A satellite has one pattern only. */
  ghost predicate OnePatternEach(bgp: Patterns, core: set<nat>, satellites: set<nat>) {
    forall i :: 0 <= i < |bgp| && ToSatellite(bgp[i], core, satellites) ==> OnlyPattern(bgp, core, satellites, i)
  }

  predicate Taken(place: map<nat, nat>, k: nat) {
    exists v :: v in place && place[v] == k
  }

  /** The selected variables take the places of the record one each. */
  ghost predicate Fills(place: map<nat, nat>, recordLen: nat) {
    && Placed(place) && (forall v :: v in place ==> place[v] < recordLen)
    && forall k :: 0 <= k < recordLen ==> Taken(place, k)
  }

  function EntryToSatellite(bgp: Patterns, column: nat, s: SoEdge, place: map<nat, nat>): SatelliteEdge
    requires s.index < |bgp| && s.nei in place
  {
    SatelliteEdge(column, !s.edgeIn, Fixed(bgp[s.index].p), place[s.nei])
  }

  ghost predicate EntriesFit(bgp: Patterns, list: seq<SoEdge>, place: map<nat, nat>) {
    forall s :: s in list ==> s.index < |bgp| && s.nei in place
  }

  lemma ColumnEntriesFit(bgp: Patterns, v: nat, satellites: set<nat>, place: map<nat, nat>)
    requires satellites <= place.Keys
    ensures EntriesFit(bgp, JoinedEntries(SoEdges(bgp, v), satellites), place)
  {
    EntriesHaveIndex(bgp, v, satellites);
    forall s | s in JoinedEntries(SoEdges(bgp, v), satellites) ensures s.nei in place {
      InJoinedEntries(SoEdges(bgp, v), satellites, s);
    }
  }

  function ColumnEdges(bgp: Patterns, column: nat, list: seq<SoEdge>, place: map<nat, nat>): seq<SatelliteEdge>
    requires EntriesFit(bgp, list, place)
  {
    seq(|list|, k requires 0 <= k < |list| => assert list[k] in list; EntryToSatellite(bgp, column, list[k], place))
  }

  /** The edges from one column to satellites. */
  function ColumnOf(bgp: Patterns, satellites: set<nat>, v: nat, column: nat, place: map<nat, nat>): seq<SatelliteEdge>
    requires satellites <= place.Keys
  {
    ColumnEntriesFit(bgp, v, satellites, place);
    ColumnEdges(bgp, column, JoinedEntries(SoEdges(bgp, v), satellites), place)
  }

  function Concat(lists: seq<seq<SatelliteEdge>>): seq<SatelliteEdge> {
    if lists == [] then [] else Concat(lists[..|lists| - 1]) + lists[|lists| - 1]
  }

  lemma {:induction false} InConcat(lists: seq<seq<SatelliteEdge>>, e: SatelliteEdge)
    ensures e in Concat(lists) <==> exists i :: 0 <= i < |lists| && e in lists[i]
    decreases |lists|
  {
    if lists != [] {
      InConcat(lists[..|lists| - 1], e);
    }
  }

  /** The edges to satellites, one list for each column. */
  function ColumnLists(bgp: Patterns, satellites: set<nat>, posId: PositionValue, width: nat, place: map<nat, nat>): seq<seq<SatelliteEdge>>
    requires satellites <= place.Keys && forall i :: 0 <= i < width ==> i in posId
  {
    seq(width, i requires 0 <= i < width => ColumnOf(bgp, satellites, posId[i], i, place))
  }

  function LayoutEdges(bgp: Patterns, satellites: set<nat>, posId: PositionValue, width: nat, place: map<nat, nat>): seq<SatelliteEdge>
    requires satellites <= place.Keys && forall i :: 0 <= i < width ==> i in posId
  {
    Concat(ColumnLists(bgp, satellites, posId, width, place))
  }

  lemma InColumn(bgp: Patterns, satellites: set<nat>, v: nat, column: nat, place: map<nat, nat>, e: SatelliteEdge) returns (s: SoEdge)
    requires satellites <= place.Keys && e in ColumnOf(bgp, satellites, v, column, place)
    ensures s in JoinedEntries(SoEdges(bgp, v), satellites) && s.index < |bgp| && s.nei in place && e == EntryToSatellite(bgp, column, s, place)
  {
    ColumnEntriesFit(bgp, v, satellites, place);
    var list := JoinedEntries(SoEdges(bgp, v), satellites);
    var k :| 0 <= k < |list| && ColumnEdges(bgp, column, list, place)[k] == e;
    s := list[k];
    assert s in list;
  }

  function TargetOf(v: nat, place: map<nat, nat>): int {
    if v in place then place[v] else -1
  }

  function Targets(posId: PositionValue, width: nat, place: map<nat, nat>): seq<int>
    requires forall i :: 0 <= i < width ==> i in posId
  {
    seq(width, i requires 0 <= i < width => TargetOf(posId[i], place))
  }

  /** The layout for the columns as the walk has left them. */
  function LayoutOf(bgp: Patterns, satellites: set<nat>, posId: PositionValue, width: nat, place: map<nat, nat>, recordLen: nat): Layout
    requires satellites <= place.Keys && forall i :: 0 <= i < width ==> i in posId
  {
    Layout(Targets(posId, width, place), LayoutEdges(bgp, satellites, posId, width, place), recordLen)
  }

  /** The edge comes from the pattern with the given index. */
  ghost predicate FromPattern(bgp: Patterns, core: set<nat>, satellites: set<nat>, idPos: PositionValue, place: map<nat, nat>,
                              e: SatelliteEdge, i: nat)
  {
    i < |bgp| && ToSatellite(bgp[i], core, satellites) && EdgeOf(bgp[i], core, idPos, place, e)
  }

  /** What the edges are laid out for. */
  ghost predicate Laid(bgp: Patterns, core: set<nat>, satellites: set<nat>, idPos: PositionValue, posId: PositionValue, place: map<nat, nat>) {
    && QueryOk(bgp) && CoreAndSatellites(bgp, core, satellites) && OnePatternEach(bgp, core, satellites)
    && satellites <= place.Keys && Placed(place) && idPos.Keys == core && MutuallyInverse(idPos, posId, |posId|)
  }

  lemma EntryOfColumn(bgp: Patterns, core: set<nat>, satellites: set<nat>, idPos: PositionValue, posId: PositionValue, place: map<nat, nat>,
                      column: nat, s: SoEdge)
    requires Laid(bgp, core, satellites, idPos, posId, place) && column < |posId|
    requires s in JoinedEntries(SoEdges(bgp, posId[column]), satellites)
    ensures s.index < |bgp| && s.nei in place
    ensures FromPattern(bgp, core, satellites, idPos, place, EntryToSatellite(bgp, column, s, place), s.index)
  {
    var v := posId[column];
    InJoinedEntries(SoEdges(bgp, v), satellites, s);
    InSoEdges(bgp, v, s);
    assert v in core && idPos[v] == column;
    NotInCore(core, satellites, s.nei);
  }

  lemma ColumnFromPattern(bgp: Patterns, core: set<nat>, satellites: set<nat>, idPos: PositionValue, posId: PositionValue,
                          place: map<nat, nat>, column: nat, e: SatelliteEdge) returns (i: nat)
    requires Laid(bgp, core, satellites, idPos, posId, place) && column < |posId|
    requires e in ColumnOf(bgp, satellites, posId[column], column, place)
    ensures e.column == column && FromPattern(bgp, core, satellites, idPos, place, e, i)
  {
    var s := InColumn(bgp, satellites, posId[column], column, place, e);
    EntryOfColumn(bgp, core, satellites, idPos, posId, place, column, s);
    i := s.index;
  }

  lemma EdgesFromPatterns(bgp: Patterns, core: set<nat>, satellites: set<nat>, idPos: PositionValue, posId: PositionValue,
                          place: map<nat, nat>, e: SatelliteEdge) returns (i: nat)
    requires Laid(bgp, core, satellites, idPos, posId, place)
    requires e in LayoutEdges(bgp, satellites, posId, |posId|, place)
    ensures e.column < |posId| && FromPattern(bgp, core, satellites, idPos, place, e, i)
  {
    var lists := ColumnLists(bgp, satellites, posId, |posId|, place);
    InConcat(lists, e);
    var column :| 0 <= column < |lists| && e in lists[column];
    i := ColumnFromPattern(bgp, core, satellites, idPos, posId, place, column, e);
  }

  lemma EntryOfSatellite(bgp: Patterns, core: set<nat>, satellites: set<nat>, i: nat) returns (s: SoEdge)
    requires CoreAndSatellites(bgp, core, satellites) && i < |bgp| && ToSatellite(bgp[i], core, satellites)
    ensures s in JoinedEntries(SoEdges(bgp, CoreEnd(bgp[i], core)), satellites) && s.index == i
    ensures s.nei == OuterEnd(bgp[i], core) && (s.edgeIn <==> bgp[i].s !in core)
  {
    var t := bgp[i];
    NotInCore(core, satellites, OuterEnd(t, core));
    s := if t.s in core then SoEdge(i, false, t.o, false) else SoEdge(i, true, t.s, false);
    assert s in EdgesOfPattern(t, i, CoreEnd(t, core));
    InSoEdges(bgp, CoreEnd(t, core), s);
    InJoinedEntries(SoEdges(bgp, CoreEnd(t, core)), satellites, s);
  }

  lemma OutOfColumn(bgp: Patterns, satellites: set<nat>, v: nat, column: nat, place: map<nat, nat>, s: SoEdge)
    requires satellites <= place.Keys && s in JoinedEntries(SoEdges(bgp, v), satellites)
    ensures s.index < |bgp| && s.nei in place && EntryToSatellite(bgp, column, s, place) in ColumnOf(bgp, satellites, v, column, place)
  {
    ColumnEntriesFit(bgp, v, satellites, place);
    var list := JoinedEntries(SoEdges(bgp, v), satellites);
    var k :| 0 <= k < |list| && list[k] == s;
    assert ColumnEdges(bgp, column, list, place)[k] == EntryToSatellite(bgp, column, s, place);
  }

  lemma ColumnKept(bgp: Patterns, satellites: set<nat>, posId: PositionValue, width: nat, place: map<nat, nat>, column: nat, e: SatelliteEdge)
    requires satellites <= place.Keys && (forall i :: 0 <= i < width ==> i in posId) && column < width
    requires e in ColumnOf(bgp, satellites, posId[column], column, place)
    ensures e in LayoutEdges(bgp, satellites, posId, width, place)
  {
    var lists := ColumnLists(bgp, satellites, posId, width, place);
    assert e in lists[column];
    InConcat(lists, e);
  }

  lemma PatternsHaveEdges(bgp: Patterns, core: set<nat>, satellites: set<nat>, idPos: PositionValue, posId: PositionValue,
                          place: map<nat, nat>, i: nat) returns (e: SatelliteEdge)
    requires Laid(bgp, core, satellites, idPos, posId, place) && i < |bgp| && ToSatellite(bgp[i], core, satellites)
    ensures e in LayoutEdges(bgp, satellites, posId, |posId|, place) && EdgeOf(bgp[i], core, idPos, place, e)
  {
    var s := EntryOfSatellite(bgp, core, satellites, i);
    var column := idPos[CoreEnd(bgp[i], core)];
    OutOfColumn(bgp, satellites, posId[column], column, place, s);
    e := EntryToSatellite(bgp, column, s, place);
    ColumnKept(bgp, satellites, posId, |posId|, place, column, e);
  }

  lemma SamePlaceSamePattern(bgp: Patterns, core: set<nat>, satellites: set<nat>, idPos: PositionValue, place: map<nat, nat>,
                             e: SatelliteEdge, i: nat, f: SatelliteEdge, j: nat)
    requires OnePatternEach(bgp, core, satellites) && Placed(place) && e.vpos == f.vpos
    requires FromPattern(bgp, core, satellites, idPos, place, e, i) && FromPattern(bgp, core, satellites, idPos, place, f, j)
    ensures i == j && e == f
  {
    assert OnlyPattern(bgp, core, satellites, i);
    assert OuterEnd(bgp[i], core) == OuterEnd(bgp[j], core);
  }

  /** Within a column, different entries are different patterns, so they go to different places. */
  lemma EntriesDistinct(bgp: Patterns, core: set<nat>, satellites: set<nat>, idPos: PositionValue, posId: PositionValue, place: map<nat, nat>,
                        column: nat, a: SoEdge, b: SoEdge)
    requires Laid(bgp, core, satellites, idPos, posId, place) && column < |posId| && a.index != b.index
    requires a in JoinedEntries(SoEdges(bgp, posId[column]), satellites) && b in JoinedEntries(SoEdges(bgp, posId[column]), satellites)
    ensures a.index < |bgp| && a.nei in place && b.index < |bgp| && b.nei in place
    ensures EntryToSatellite(bgp, column, a, place).vpos != EntryToSatellite(bgp, column, b, place).vpos
  {
    EntryOfColumn(bgp, core, satellites, idPos, posId, place, column, a);
    EntryOfColumn(bgp, core, satellites, idPos, posId, place, column, b);
    var e, f := EntryToSatellite(bgp, column, a, place), EntryToSatellite(bgp, column, b, place);
    if e.vpos == f.vpos {
      SamePlaceSamePattern(bgp, core, satellites, idPos, place, e, a.index, f, b.index);
    }
  }

  lemma ColumnDistinct(bgp: Patterns, core: set<nat>, satellites: set<nat>, idPos: PositionValue, posId: PositionValue, place: map<nat, nat>,
                       column: nat)
    requires Laid(bgp, core, satellites, idPos, posId, place) && column < |posId|
    ensures PlacesDistinct(ColumnOf(bgp, satellites, posId[column], column, place))
  {
    var list := JoinedEntries(SoEdges(bgp, posId[column]), satellites);
    ColumnEntriesFit(bgp, posId[column], satellites, place);
    EntriesIncreasing(bgp, posId[column], satellites);
    var edges := ColumnEdges(bgp, column, list, place);
    forall i, j | 0 <= i < j < |edges| ensures edges[i].vpos != edges[j].vpos {
      assert list[i] in list && list[j] in list && list[i].index < list[j].index;
      EntriesDistinct(bgp, core, satellites, idPos, posId, place, column, list[i], list[j]);
    }
  }

  ghost predicate PlacesDistinct(edges: seq<SatelliteEdge>) {
    forall i, j :: 0 <= i < j < |edges| ==> edges[i].vpos != edges[j].vpos
  }

  lemma PlacesAppend(a: seq<SatelliteEdge>, b: seq<SatelliteEdge>)
    requires PlacesDistinct(a) && PlacesDistinct(b) && forall e, f :: e in a && f in b ==> e.vpos != f.vpos
    ensures PlacesDistinct(a + b)
  {
    forall i, j | 0 <= i < j < |a + b| ensures (a + b)[i].vpos != (a + b)[j].vpos {
      if i < |a| <= j {
        assert (a + b)[i] in a && (a + b)[j] in b;
      }
    }
  }

  ghost predicate ListsApart(a: seq<SatelliteEdge>, b: seq<SatelliteEdge>) {
    forall e, f :: e in a && f in b ==> e.vpos != f.vpos
  }

  lemma {:induction false} ConcatDistinct(lists: seq<seq<SatelliteEdge>>)
    requires forall i :: 0 <= i < |lists| ==> PlacesDistinct(lists[i])
    requires forall i, j :: 0 <= i < j < |lists| ==> ListsApart(lists[i], lists[j])
    ensures PlacesDistinct(Concat(lists))
    decreases |lists|
  {
    if lists != [] {
      var init, last := lists[..|lists| - 1], lists[|lists| - 1];
      ConcatDistinct(init);
      forall e, f | e in Concat(init) && f in last ensures e.vpos != f.vpos {
        InConcat(init, e);
        var i :| 0 <= i < |init| && e in init[i];
        assert ListsApart(lists[i], last);
      }
      PlacesAppend(Concat(init), last);
    }
  }

  lemma ColumnsApart(bgp: Patterns, core: set<nat>, satellites: set<nat>, idPos: PositionValue, posId: PositionValue, place: map<nat, nat>,
                     a: nat, b: nat)
    requires Laid(bgp, core, satellites, idPos, posId, place) && a < b < |posId|
    ensures ListsApart(ColumnOf(bgp, satellites, posId[a], a, place), ColumnOf(bgp, satellites, posId[b], b, place))
  {
    forall e, f | e in ColumnOf(bgp, satellites, posId[a], a, place) && f in ColumnOf(bgp, satellites, posId[b], b, place)
      ensures e.vpos != f.vpos
    {
      var i := ColumnFromPattern(bgp, core, satellites, idPos, posId, place, a, e);
      var j := ColumnFromPattern(bgp, core, satellites, idPos, posId, place, b, f);
      if e.vpos == f.vpos {
        SamePlaceSamePattern(bgp, core, satellites, idPos, place, e, i, f, j);
      }
    }
  }

  lemma LayoutDistinct(bgp: Patterns, core: set<nat>, satellites: set<nat>, idPos: PositionValue, posId: PositionValue, place: map<nat, nat>)
    requires Laid(bgp, core, satellites, idPos, posId, place)
    ensures PlacesDistinct(LayoutEdges(bgp, satellites, posId, |posId|, place))
  {
    var lists := ColumnLists(bgp, satellites, posId, |posId|, place);
    forall i | 0 <= i < |lists| ensures PlacesDistinct(lists[i]) {
      ColumnDistinct(bgp, core, satellites, idPos, posId, place, i);
    }
    forall i, j | 0 <= i < j < |lists| ensures ListsApart(lists[i], lists[j]) {
      ColumnsApart(bgp, core, satellites, idPos, posId, place, i, j);
    }
    ConcatDistinct(lists);
  }

  // ---- the layout is one for the query ----

  lemma LaidEdges(bgp: Patterns, core: set<nat>, satellites: set<nat>, idPos: PositionValue, posId: PositionValue, place: map<nat, nat>,
                  recordLen: nat)
    requires Laid(bgp, core, satellites, idPos, posId, place)
    ensures EdgesPlaced(LayoutOf(bgp, satellites, posId, |posId|, place, recordLen), bgp, core, satellites, idPos, place)
  {
    var l := LayoutOf(bgp, satellites, posId, |posId|, place, recordLen);
    forall t | t in bgp && ToSatellite(t, core, satellites) ensures exists e :: e in l.edges && EdgeOf(t, core, idPos, place, e) {
      var i :| 0 <= i < |bgp| && bgp[i] == t;
      var e := PatternsHaveEdges(bgp, core, satellites, idPos, posId, place, i);
    }
    forall e | e in l.edges ensures exists t :: t in bgp && ToSatellite(t, core, satellites) && EdgeOf(t, core, idPos, place, e) {
      var i := EdgesFromPatterns(bgp, core, satellites, idPos, posId, place, e);
      assert bgp[i] in bgp;
    }
  }

  lemma EdgeInRange(bgp: Patterns, core: set<nat>, satellites: set<nat>, idPos: PositionValue, posId: PositionValue, place: map<nat, nat>,
                    recordLen: nat, e: SatelliteEdge)
    requires Laid(bgp, core, satellites, idPos, posId, place) && Fills(place, recordLen)
    requires e in LayoutEdges(bgp, satellites, posId, |posId|, place)
    ensures e.column < |posId| && e.pre.Fixed? && e.vpos < recordLen
  {
    var i := EdgesFromPatterns(bgp, core, satellites, idPos, posId, place, e);
  }

  lemma PlaceUsed(bgp: Patterns, core: set<nat>, satellites: set<nat>, idPos: PositionValue, posId: PositionValue, place: map<nat, nat>,
                  recordLen: nat, k: nat)
    requires Laid(bgp, core, satellites, idPos, posId, place) && Fills(place, recordLen) && k < recordLen && place.Keys <= core + satellites
    ensures k in Targets(posId, |posId|, place)
            || exists e :: e in LayoutEdges(bgp, satellites, posId, |posId|, place) && e.vpos == k
  {
    assert Taken(place, k);
    var v :| v in place && place[v] == k;
    if v in core {
      assert Targets(posId, |posId|, place)[idPos[v]] == k;
    } else {
      var t := PatternOfSatellite(bgp, core, satellites, v);
      var i :| 0 <= i < |bgp| && bgp[i] == t;
      var e := PatternsHaveEdges(bgp, core, satellites, idPos, posId, place, i);
    }
  }

  ghost predicate EdgeFits(l: Layout, e: SatelliteEdge) {
    e.column < |l.targets| && e.pre.Fixed? && e.vpos < l.recordLen
  }

  ghost predicate Used(l: Layout, k: nat) {
    k in l.targets || exists e :: e in l.edges && e.vpos == k
  }

  lemma ValidFrom(l: Layout)
    requires (forall i :: 0 <= i < |l.targets| ==> l.targets[i] < l.recordLen) && (forall e :: e in l.edges ==> EdgeFits(l, e))
    requires PlacesDistinct(l.edges) && forall k: nat :: k < l.recordLen ==> Used(l, k)
    ensures l.Valid()
  {
    forall k | 0 <= k < l.recordLen ensures k in l.targets || exists e :: e in l.edges && e.vpos == k {
      assert Used(l, k);
    }
    forall e | e in l.edges ensures e.column < |l.targets| && e.pre.Fixed? && e.vpos < l.recordLen {
      assert EdgeFits(l, e);
    }
  }

  lemma LayoutValid(bgp: Patterns, core: set<nat>, satellites: set<nat>, idPos: PositionValue, posId: PositionValue, place: map<nat, nat>,
                    recordLen: nat)
    requires Laid(bgp, core, satellites, idPos, posId, place) && Fills(place, recordLen) && place.Keys <= core + satellites
    ensures LayoutOf(bgp, satellites, posId, |posId|, place, recordLen).Valid()
  {
    var l := LayoutOf(bgp, satellites, posId, |posId|, place, recordLen);
    LayoutDistinct(bgp, core, satellites, idPos, posId, place);
    forall e | e in l.edges ensures EdgeFits(l, e) {
      EdgeInRange(bgp, core, satellites, idPos, posId, place, recordLen, e);
    }
    forall k: nat | k < recordLen ensures Used(l, k) {
      PlaceUsed(bgp, core, satellites, idPos, posId, place, recordLen, k);
    }
    ValidFrom(l);
  }

  /** The layout made of the walk's columns is one that writes the query's records out. */
  lemma LayoutWritesOut(bgp: Patterns, core: set<nat>, satellites: set<nat>, idPos: PositionValue, posId: PositionValue, place: map<nat, nat>,
                        recordLen: nat)
    requires Laid(bgp, core, satellites, idPos, posId, place) && Fills(place, recordLen) && place.Keys <= core + satellites
    ensures WritesOut(LayoutOf(bgp, satellites, posId, |posId|, place, recordLen), bgp, core, satellites, idPos, posId, place)
  {
    LaidEdges(bgp, core, satellites, idPos, posId, place, recordLen);
    LayoutValid(bgp, core, satellites, idPos, posId, place, recordLen);
  }

  // ---- from start to end ----

  /** What the walk starts from, and a query it can join as a whole: its core hangs together. */
  ghost predicate Startable(env: Env, bgp: Patterns, feeds: seq<FeedOneNode>, given: map<nat, seq<nat>>, g: Graph, core: set<nat>,
                            satellites: set<nat>, start: nat, place: map<nat, nat>, recordLen: nat)
  {
    && OldQuery(env, bgp, feeds, given, core, satellites) && OnePatternEach(bgp, core, satellites)
    && IsJoinGraph(g, bgp) && start in core && start in env.caches && Component(g, core, start) == core
    && Fills(place, recordLen) && satellites <= place.Keys <= core + satellites
  }

  ghost predicate IsRecordOfAnswer(env: Env, bgp: Patterns, given: map<nat, seq<nat>>, place: map<nat, nat>, recordLen: nat, x: seq<nat>) {
    exists mu :: IsAnswer(env.g, bgp, given, mu) && |x| == recordLen && Shows(place, mu, x)
  }

  lemma WrittenAnswers(env: Env, bgp: Patterns, feeds: seq<FeedOneNode>, given: map<nat, seq<nat>>, core: set<nat>, satellites: set<nat>,
                       idPos: PositionValue, posId: PositionValue, rows: seq<Row>, place: map<nat, nat>, recordLen: nat) returns (l: Layout)
    requires OldQuery(env, bgp, feeds, given, core, satellites) && OnePatternEach(bgp, core, satellites)
    requires Fills(place, recordLen) && satellites <= place.Keys <= core + satellites
    requires idPos.Keys == core && Exact(env, InsideConstraints(bgp, core), idPos, posId, rows)
    ensures l == LayoutOf(bgp, satellites, posId, |posId|, place, recordLen) && l.Valid() && RowsFit(l, rows)
    ensures forall x :: x in TableRecords(env.g, l, rows) <==> IsRecordOfAnswer(env, bgp, given, place, recordLen, x)
    ensures core <= place.Keys ==> NoDuplicates(TableRecords(env.g, l, rows))
  {
    l := LayoutOf(bgp, satellites, posId, |posId|, place, recordLen);
    LayoutWritesOut(bgp, core, satellites, idPos, posId, place, recordLen);
    JoinedRowsFit(env, bgp, core, satellites, idPos, posId, rows, l, place);
    forall x ensures x in TableRecords(env.g, l, rows) <==> IsRecordOfAnswer(env, bgp, given, place, recordLen, x) {
      RecordsAreAnswers(env, bgp, feeds, given, core, satellites, idPos, posId, rows, l, place, x);
    }
    if core <= place.Keys {
      AnswersOnce(env, bgp, core, satellites, idPos, posId, rows, l, place);
    }
  }

  /** Without solutions of the core there are no answers. */
  lemma NoAnswers(env: Env, bgp: Patterns, feeds: seq<FeedOneNode>, given: map<nat, seq<nat>>, core: set<nat>, satellites: set<nat>)
    requires OldQuery(env, bgp, feeds, given, core, satellites) && Unsolvable(env, bgp, core)
    ensures forall mu :: !IsAnswer(env.g, bgp, given, mu)
  {
    forall mu ensures !IsAnswer(env.g, bgp, given, mu) {
      if mu.Keys == SoVars(bgp) {
        AnswerSplits(env, bgp, feeds, given, core, satellites, mu);
        assert Restricted(mu, core).Keys == core;
      }
    }
  }

  /** A join that has not started. */
  ghost predicate Unstarted(j: Join)
    reads j
  {
    && j.currentTable == [] && j.id2pos == map[] && j.pos2id == map[] && j.idPos == 0 && j.mystack == [] && j.newStart == End
    && j.dealedTriple == {}
  }

  /** The walk over a core that hangs together joins all of it. */
  method WalkCore(j: Join, env: Env, bgp: Patterns, ghost g: Graph, core: set<nat>, start: nat, pre2num: nat -> nat, candidateSize: nat -> nat)
    returns (ok: bool)
    requires QueryOk(bgp) && EnvFits(env, bgp) && env.CachesSorted() && IsJoinGraph(g, bgp) && core <= g.nodes
    requires start in core && start in env.caches && Component(g, core, start) == core && Unstarted(j)
    modifies j
    ensures ok ==> j.newStart == End && j.id2pos.Keys == core && j.idPos == |j.pos2id| && Exact(env, InsideConstraints(bgp, core), j.id2pos, j.pos2id, j.currentTable)
    ensures !ok ==> Unsolvable(env, bgp, core)
  {
    ok := MultiJoin(j, env, bgp, g, core, start, pre2num, candidateSize);
    if ok {
      InverseWidth(j.id2pos, j.pos2id, j.idPos);
    }
  }

  /** Lays the records out after the table's columns and writes them. */
  method WriteAnswers(w: ResultWriter, env: Env, bgp: Patterns, ghost feeds: seq<FeedOneNode>, ghost given: map<nat, seq<nat>>,
                      ghost core: set<nat>, satellites: set<nat>, place: map<nat, nat>, ghost idPos: PositionValue, posId: PositionValue, rows: seq<Row>)
    requires OldQuery(env, bgp, feeds, given, core, satellites) && OnePatternEach(bgp, core, satellites)
    requires Fills(place, w.record.Length) && satellites <= place.Keys <= core + satellites
    requires idPos.Keys == core && Exact(env, InsideConstraints(bgp, core), idPos, posId, rows)
    modifies w`resultList, w.record
    ensures forall x :: x in w.resultList <==> IsRecordOfAnswer(env, bgp, given, place, w.record.Length, x)
    ensures core <= place.Keys ==> NoDuplicates(w.resultList)
  {
    ghost var written := WrittenAnswers(env, bgp, feeds, given, core, satellites, idPos, posId, rows, place, w.record.Length);
    var l := LayoutOf(bgp, satellites, posId, |posId|, place, w.record.Length);
    CopyToResult(w, env.g, l, rows);
  }

  /**
   Joins a query with a core and satellites: the records written are exactly those that show an answer at
   the places of the selected variables, each once if all core variables are selected. If the walk fails,
   the query has no answers.
   */
  method JoinBasic(j: Join, w: ResultWriter, env: Env, bgp: Patterns, ghost feeds: seq<FeedOneNode>, ghost given: map<nat, seq<nat>>,
                   ghost g: Graph, core: set<nat>, satellites: set<nat>, start: nat, place: map<nat, nat>,
                   pre2num: nat -> nat, candidateSize: nat -> nat)
    returns (ok: bool)
    requires Startable(env, bgp, feeds, given, g, core, satellites, start, place, w.record.Length) && Unstarted(j)
    modifies j, w`resultList, w.record
    ensures ok ==> forall x :: x in w.resultList <==> IsRecordOfAnswer(env, bgp, given, place, w.record.Length, x)
    ensures ok && core <= place.Keys ==> NoDuplicates(w.resultList)
    ensures !ok ==> forall mu :: !IsAnswer(env.g, bgp, given, mu)
  {
    ok := WalkCore(j, env, bgp, g, core, start, pre2num, candidateSize);
    if ok {
      WriteAnswers(w, env, bgp, feeds, given, core, satellites, place, j.id2pos, j.pos2id, j.currentTable);
    } else {
      NoAnswers(env, bgp, feeds, given, core, satellites);
    }
  }
}
