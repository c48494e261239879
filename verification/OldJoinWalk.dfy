/**
 The stack-driven walk of the older join over the core of the query graph.
 */
module OldJoinWalk {
  import opened TableOperator
  import opened Semantics
  import opened StepSpec
  import opened ExactSteps
  import opened ExactJoins
  import opened BasicGraphPattern
  import opened JoinGraph
  import opened PlanTreeBuilder
  import ExecutorFilter
  import PlanMeaning
  import opened QueryAnswer
  import opened TableGrowth
  import opened OldJoin
  import opened OldJoinEdges

  // ---- a table may be permuted ----

  lemma ExactPermutes(env: Env, constraints: set<Constraint>, idPos: PositionValue, posId: PositionValue, a: seq<Row>, b: seq<Row>)
    requires Exact(env, constraints, idPos, posId, a) && multiset(a) == multiset(b)
    ensures Exact(env, constraints, idPos, posId, b)
  {
    forall x ensures multiset(b)[x] <= 1 {
      CountOfDistinct(a, x);
    }
    DistinctOfCounts(b);
    forall row ensures row in b <==> row in a {
      assert row in b <==> row in multiset(b);
      assert row in a <==> row in multiset(a);
    }
  }

  lemma {:induction false} GrownIsStep(env: Env, edges: seq<Edge>, id: nat, distinct: bool, idPos: PositionValue, rows: seq<Row>)
    requires forall row :: row in rows ==> AllReadable(edges, idPos, row)
    ensures var step := JoinNode(FeedOneNode(id, true, edges), distinct, false);
            AllStepReadable(step, idPos, rows) && AllGrown(ChoiceOf(env, edges, id, idPos), rows) == StepRows(env, step, idPos, rows)
  {
    var step := JoinNode(FeedOneNode(id, true, edges), distinct, false);
    var valid := ChoiceOf(env, edges, id, idPos);
    if rows != [] {
      var init, row := rows[..|rows| - 1], rows[|rows| - 1];
      assert rows == init + [row];
      GrownIsStep(env, edges, id, distinct, idPos, init);
      assert AllReadable(edges, idPos, row);
      OneRowIsStep(env, edges, id, distinct, idPos, row);
      StepRowsAppend(env, step, idPos, init, [row]);
    }
  }

  lemma OneRowIsStep(env: Env, edges: seq<Edge>, id: nat, distinct: bool, idPos: PositionValue, row: Row)
    requires AllReadable(edges, idPos, row)
    ensures var step := JoinNode(FeedOneNode(id, true, edges), distinct, false);
            StepReadable(step, idPos, row)
            && RowPlus(row, ChoiceOf(env, edges, id, idPos)(row)) == StepRows(env, step, idPos, [row])
  {
    StepRowsSingle(env, JoinNode(FeedOneNode(id, true, edges), distinct, false), idPos, row);
    assert RowPlus(row, ChoiceOf(env, edges, id, idPos)(row)) == Extended(row, Candidates(env, edges, id, idPos, row));
  }

  // ---- the columns a new variable is joined over ----

  /** For each column of the table, the edges between the new variable and that column's variable. */
  function ColumnsFor(bgp: Patterns, posId: PositionValue, width: nat, next: nat): seq<seq<SoEdge>>
    requires forall i :: 0 <= i < width ==> i in posId
  {
    seq(width, i requires 0 <= i < width => JoinedEntries(SoEdges(bgp, next), {posId[i]}))
  }

  lemma {:induction false} InConstantPredicateEdges(bgp: Patterns, es: seq<SoEdge>, x: Edge)
    requires (forall e :: e in es ==> e.index < |bgp|) && forall t :: t in bgp ==> t.pConst
    ensures x in ConstantPredicateEdges(bgp, es) <==> exists e :: e in es && EntryEdge(bgp, e) == x
  {
    if es != [] {
      var init, last := es[..|es| - 1], es[|es| - 1];
      assert es == init + [last] && last in es && bgp[last.index] in bgp;
      InConstantPredicateEdges(bgp, init, x);
    }
  }

  lemma InColumnEdges(bgp: Patterns, es: seq<SoEdge>, x: Edge)
    requires (forall e :: e in es ==> e.index < |bgp|) && forall t :: t in bgp ==> t.pConst
    ensures x in ColumnEdges(bgp, es) <==> exists e :: e in es && EntryEdge(bgp, e) == x
  {
    InConstantPredicateEdges(bgp, es, x);
    if es != [] {
      InConstantPredicateEdges(bgp, es, EntryEdge(bgp, es[0]));
    }
  }

  lemma {:induction false} ColumnOfFlatEdge(bgp: Patterns, columns: seq<seq<SoEdge>>, x: Edge) returns (c: nat)
    requires ColumnsOk(bgp, columns) && x in FlatEdges(bgp, columns)
    ensures c < |columns| && (forall e :: e in columns[c] ==> e.index < |bgp|) && x in ColumnEdges(bgp, columns[c])
  {
    var init := columns[..|columns| - 1];
    if x in FlatEdges(bgp, init) {
      c := ColumnOfFlatEdge(bgp, init, x);
    } else {
      c := |columns| - 1;
    }
  }

  lemma ColumnInFlatEdges(bgp: Patterns, columns: seq<seq<SoEdge>>, c: nat, x: Edge)
    requires ColumnsOk(bgp, columns) && c < |columns| && (forall e :: e in columns[c] ==> e.index < |bgp|) && x in ColumnEdges(bgp, columns[c])
    ensures x in FlatEdges(bgp, columns)
  {
    FlatSnoc(bgp, columns, c);
    FlatPrefix(bgp, columns, c + 1);
  }

  lemma ColumnsForOk(bgp: Patterns, posId: PositionValue, width: nat, next: nat)
    requires forall i :: 0 <= i < width ==> i in posId
    ensures ColumnsOk(bgp, ColumnsFor(bgp, posId, width, next))
  {
    forall i, e | 0 <= i < width && e in ColumnsFor(bgp, posId, width, next)[i] ensures e.index < |bgp| {
      EntriesHaveIndex(bgp, next, {posId[i]});
    }
  }

  /** In the walk, the entries of each column are about the variable of the column. */
  lemma ColumnsForEntries(bgp: Patterns, idPos: PositionValue, posId: PositionValue, width: nat, next: nat)
    requires MutuallyInverse(idPos, posId, width)
    ensures ColumnEntries(bgp, ColumnsFor(bgp, posId, width, next), next, idPos)
  {
    var columns := ColumnsFor(bgp, posId, width, next);
    forall c | 0 <= c < |columns| ensures EntriesAt(bgp, columns[c], next, idPos, c) {
      EntriesHaveIndex(bgp, next, {posId[c]});
      forall e | e in columns[c] ensures e in SoEdges(bgp, next) && !e.neiConst && e.nei == posId[c] {
        InJoinedEntries(SoEdges(bgp, next), {posId[c]}, e);
      }
    }
  }

  lemma FlatInExtend(bgp: Patterns, idPos: PositionValue, posId: PositionValue, width: nat, next: nat, x: Edge)
    requires QueryOk(bgp) && MutuallyInverse(idPos, posId, width) && ColumnsOk(bgp, ColumnsFor(bgp, posId, width, next))
    requires x in FlatEdges(bgp, ColumnsFor(bgp, posId, width, next))
    ensures x in ExtendEdges(bgp, idPos.Keys, next)
  {
    var columns, list := ColumnsFor(bgp, posId, width, next), JoinedEntries(SoEdges(bgp, next), idPos.Keys);
    var c := ColumnOfFlatEdge(bgp, columns, x);
    InColumnEdges(bgp, columns[c], x);
    var e :| e in columns[c] && EntryEdge(bgp, e) == x;
    InJoinedEntries(SoEdges(bgp, next), {posId[c]}, e);
    InJoinedEntries(SoEdges(bgp, next), idPos.Keys, e);
    EntriesHaveIndex(bgp, next, idPos.Keys);
    InEntryEdges(bgp, list, x);
  }

  lemma ExtendInFlat(bgp: Patterns, idPos: PositionValue, posId: PositionValue, width: nat, next: nat, x: Edge)
    requires QueryOk(bgp) && MutuallyInverse(idPos, posId, width) && ColumnsOk(bgp, ColumnsFor(bgp, posId, width, next))
    requires x in ExtendEdges(bgp, idPos.Keys, next)
    ensures x in FlatEdges(bgp, ColumnsFor(bgp, posId, width, next))
  {
    var columns, list := ColumnsFor(bgp, posId, width, next), JoinedEntries(SoEdges(bgp, next), idPos.Keys);
    EntriesHaveIndex(bgp, next, idPos.Keys);
    InEntryEdges(bgp, list, x);
    var e :| e in list && EntryEdge(bgp, e) == x;
    InJoinedEntries(SoEdges(bgp, next), idPos.Keys, e);
    var c := idPos[e.nei];
    EntriesHaveIndex(bgp, next, {posId[c]});
    InJoinedEntries(SoEdges(bgp, next), {posId[c]}, e);
    InColumnEdges(bgp, columns[c], x);
    ColumnInFlatEdges(bgp, columns, c, x);
  }

  /** Over all columns these are the edges that join the variable to the variables of the table. */
  lemma FlatIsExtend(bgp: Patterns, idPos: PositionValue, posId: PositionValue, width: nat, next: nat)
    requires QueryOk(bgp) && MutuallyInverse(idPos, posId, width)
    ensures ColumnsOk(bgp, ColumnsFor(bgp, posId, width, next))
    ensures forall x :: x in FlatEdges(bgp, ColumnsFor(bgp, posId, width, next)) <==> x in ExtendEdges(bgp, idPos.Keys, next)
  {
    var columns := ColumnsFor(bgp, posId, width, next);
    ColumnsForOk(bgp, posId, width, next);
    forall x ensures x in FlatEdges(bgp, columns) <==> x in ExtendEdges(bgp, idPos.Keys, next) {
      if x in FlatEdges(bgp, columns) {
        FlatInExtend(bgp, idPos, posId, width, next, x);
      }
      if x in ExtendEdges(bgp, idPos.Keys, next) {
        ExtendInFlat(bgp, idPos, posId, width, next, x);
      }
    }
  }

  // ---- one more variable keeps the table exact ----

  /** What the walk keeps of its table: the exact table of the patterns between the joined variables. */
  ghost predicate TableExact(env: Env, bgp: Patterns, idPos: PositionValue, posId: PositionValue, rows: seq<Row>) {
    Exact(env, InsideConstraints(bgp, idPos.Keys), idPos, posId, rows)
  }

  lemma SameEdges(env: Env, a: seq<Edge>, b: seq<Edge>, node: nat, known: set<nat>)
    requires (forall x :: x in a <==> x in b) && b != [] && BringsIn(b, node, known) && Covered(env, b, node)
    ensures a != [] && BringsIn(a, node, known) && Covered(env, a, node) && ConstraintsOf(a) == ConstraintsOf(b)
  {
    assert b[0] in a;
  }

  /** The edges over the columns are as good as a plan step's edges. */
  lemma WalkEdges(env: Env, bgp: Patterns, g: Graph, idPos: PositionValue, posId: PositionValue, next: nat)
    requires QueryOk(bgp) && EnvFits(env, bgp) && MutuallyInverse(idPos, posId, |posId|)
    requires next !in idPos && IsJoinGraph(g, bgp) && g.Touches(idPos.Keys, next)
    ensures ColumnsOk(bgp, ColumnsFor(bgp, posId, |posId|, next))
    ensures var edges := FlatEdges(bgp, ColumnsFor(bgp, posId, |posId|, next));
            && edges != [] && BringsIn(edges, next, idPos.Keys) && Covered(env, edges, next)
            && InsideConstraints(bgp, idPos.Keys + {next}) == InsideConstraints(bgp, idPos.Keys) + ConstraintsOf(edges)
  {
    FlatIsExtend(bgp, idPos, posId, |posId|, next);
    ExtendEdgesRead(bgp, idPos.Keys, next);
    ExtendEdgesThere(bgp, g, idPos.Keys, next);
    ExtendCovered(env, bgp, idPos.Keys, next);
    ExtendConstraints(bgp, idPos.Keys, next);
    SameEdges(env, FlatEdges(bgp, ColumnsFor(bgp, posId, |posId|, next)), ExtendEdges(bgp, idPos.Keys, next), next, idPos.Keys);
  }

  lemma GrownExact(env: Env, constraints: set<Constraint>, edges: seq<Edge>, idPos: PositionValue, posId: PositionValue, rows: seq<Row>, next: nat)
    requires Exact(env, constraints, idPos, posId, rows) && next !in idPos
    requires edges != [] && BringsIn(edges, next, idPos.Keys) && Covered(env, edges, next)
    ensures forall row :: row in rows ==> AllReadable(edges, idPos, row)
    ensures Exact(env, constraints + ConstraintsOf(edges), AddedIdPos(idPos, posId, next), AddedPosId(posId, next),
                  AllGrown(ChoiceOf(env, edges, next, idPos), rows))
  {
    var step := JoinNode(FeedOneNode(next, true, edges), true, false);
    JoinNodeExact(env, constraints, idPos, posId, rows, step);
    forall row | row in rows ensures AllReadable(edges, idPos, row) {
      assert StepReadable(step, idPos, row);
    }
    GrownIsStep(env, edges, next, true, idPos, rows);
  }

  // ---- the walk ----

  /** Which core patterns are dealt with: those between two joined variables, and no others. */
  ghost predicate Dealt(bgp: Patterns, core: set<nat>, dealed: set<nat>, joined: set<nat>) {
    forall i :: 0 <= i < |bgp| && bgp[i].Within(core) ==> (i in dealed <==> bgp[i].Within(joined))
  }

  /** All core patterns of a variable are between joined variables. */
  ghost predicate Closed(bgp: Patterns, core: set<nat>, joined: set<nat>, v: nat) {
    forall i :: 0 <= i < |bgp| && bgp[i].Within(core) && bgp[i].About(v) ==> bgp[i].Within(joined)
  }

  function CoreGraph(g: Graph, core: set<nat>): Graph {
    Graph(core, g.nei)
  }

  /** The variables that can be reached from the start over core patterns. */
  ghost function Component(g: Graph, core: set<nat>, start: nat): set<nat> {
    set v | v in core && Reaches(CoreGraph(g, core), core, start, v)
  }

  ghost predicate WalkState(bgp: Patterns, g: Graph, core: set<nat>, start: nat, joined: set<nat>, dealed: set<nat>, stack: seq<nat>) {
    && joined <= core && start in joined && CoreGraph(g, core).Connected(joined)
    && Dealt(bgp, core, dealed, joined)
    && (forall v :: v in stack ==> v in joined)
    && (forall v :: v in joined ==> v in stack || Closed(bgp, core, joined, v))
  }

  /** When the stack has run empty, the joined variables are exactly the start's component. */
  lemma EmptyStackMeansComponent(bgp: Patterns, g: Graph, core: set<nat>, start: nat, joined: set<nat>, dealed: set<nat>)
    requires IsJoinGraph(g, bgp) && core <= g.nodes && WalkState(bgp, g, core, start, joined, dealed, [])
    ensures joined == Component(g, core, start)
  {
    forall v | v in joined ensures Reaches(CoreGraph(g, core), core, start, v) {
      ConnectedReaches(CoreGraph(g, core), joined, start, v);
      var walk :| Walk(CoreGraph(g, core), joined, walk) && walk[0] == start && walk[|walk| - 1] == v;
      assert Walk(CoreGraph(g, core), core, walk);
    }
    forall v | v in core && Reaches(CoreGraph(g, core), core, start, v) ensures v in joined {
      if v !in joined {
        ReachesLinked(CoreGraph(g, core), core, joined, start, v);
        var x, y :| x in joined && y in core - joined && CoreGraph(g, core).Adjacent(x, y);
        NotClosed(bgp, g, core, joined, x, y);
      }
    }
  }

  lemma NotClosed(bgp: Patterns, g: Graph, core: set<nat>, joined: set<nat>, x: nat, y: nat)
    requires IsJoinGraph(g, bgp) && joined <= core && x in joined && y in core - joined && CoreGraph(g, core).Adjacent(x, y)
    ensures !Closed(bgp, core, joined, x)
  {
    assert g.Adjacent(x, y);
    var i :| 0 <= i < |bgp| && LinkedBy(bgp[i], x, y);
    assert bgp[i].Within(core) && bgp[i].About(x) && !bgp[i].Within(joined);
  }

  /** Everything joined on the way is part of the component. */
  lemma JoinedInComponent(bgp: Patterns, g: Graph, core: set<nat>, start: nat, joined: set<nat>)
    requires joined <= core && start in joined && CoreGraph(g, core).Connected(joined)
    ensures joined <= Component(g, core, start)
  {
    forall v | v in joined ensures Reaches(CoreGraph(g, core), core, start, v) {
      ConnectedReaches(CoreGraph(g, core), joined, start, v);
      var walk :| Walk(CoreGraph(g, core), joined, walk) && walk[0] == start && walk[|walk| - 1] == v;
      assert Walk(CoreGraph(g, core), core, walk);
    }
  }

  const PARAM_PRE := 10000.0
  const PARAM_SIZE := 1000000.0

  function Share(weight: real, n: nat): (r: real)
    requires weight >= 0.0
    ensures r >= 0.0
  {
    weight / (n as real + 1.0)
  }

  /** An entry of an edge list that leads to a core variable over a pattern that is still open. */
  predicate Open(core: set<nat>, dealed: set<nat>, e: SoEdge) {
    !e.neiConst && e.nei in core && e.index !in dealed
  }

  /** What the open edges of a list add to a score: the rarer the predicate, the more. */
  function EdgesScore(bgp: Patterns, core: set<nat>, dealed: set<nat>, pre2num: nat -> nat, list: seq<SoEdge>): (r: real)
    ensures r >= 0.0
  {
    if list == [] then 0.0 else
      var e := list[|list| - 1];
      EdgesScore(bgp, core, dealed, pre2num, list[..|list| - 1])
      + (if Open(core, dealed, e) && e.index < |bgp| && bgp[e.index].pConst then Share(PARAM_PRE, pre2num(bgp[e.index].p)) else 0.0)
  }

  /** The score of a variable: rare predicates of its open edges and few candidates count. It is never below one. */
  function Score(bgp: Patterns, core: set<nat>, dealed: set<nat>, pre2num: nat -> nat, v: nat, size: nat): (r: real)
    ensures r >= 1.0
  {
    1.0 + EdgesScore(bgp, core, dealed, pre2num, SoEdges(bgp, v)) + Share(PARAM_SIZE, size)
  }

  /** With no open edge over a constant predicate, the score is one and the share of the candidates. */
  lemma {:induction false} QuietScore(bgp: Patterns, core: set<nat>, dealed: set<nat>, pre2num: nat -> nat, list: seq<SoEdge>)
    requires forall e :: e in list && e.index < |bgp| && !e.neiConst && e.nei in core && e.index !in dealed ==> !bgp[e.index].pConst
    ensures EdgesScore(bgp, core, dealed, pre2num, list) == 0.0
  {
    if list != [] {
      QuietScore(bgp, core, dealed, pre2num, list[..|list| - 1]);
      assert list[|list| - 1] in list;
    }
  }

  /** An entry adds a share exactly if it is open and its predicate constant: the more triples with the predicate, the less. */
  lemma EntryAdds(bgp: Patterns, core: set<nat>, dealed: set<nat>, pre2num: nat -> nat, list: seq<SoEdge>, e: SoEdge)
    requires e.index < |bgp|
    ensures var added := EdgesScore(bgp, core, dealed, pre2num, list + [e]) - EdgesScore(bgp, core, dealed, pre2num, list);
            var counts := !e.neiConst && e.nei in core && e.index !in dealed && bgp[e.index].pConst;
            added == if counts then 10000.0 / (pre2num(bgp[e.index].p) as real + 1.0) else 0.0
  {
    assert (list + [e])[..|list|] == list;
  }

  method ScoreNode(bgp: Patterns, core: set<nat>, dealed: set<nat>, v: nat, pre2num: nat -> nat, size: nat) returns (wt: real)
    requires forall e :: e in SoEdges(bgp, v) ==> e.index < |bgp|
    ensures wt == Score(bgp, core, dealed, pre2num, v, size)
    ensures wt == 1.0 + EdgesScore(bgp, core, dealed, pre2num, SoEdges(bgp, v)) + 1000000.0 / (size as real + 1.0)
  {
    wt := 1.0;
    var list, i := SoEdges(bgp, v), 0;
    while i < |list|
      invariant 0 <= i <= |list| && wt == 1.0 + EdgesScore(bgp, core, dealed, pre2num, list[..i])
    {
      assert list[i] in list && list[..i + 1] == list[..i] + [list[i]];
      if list[i].index !in dealed && !list[i].neiConst && list[i].nei in core && bgp[list[i].index].pConst {
        wt := wt + Share(PARAM_PRE, pre2num(bgp[list[i].index].p));
      }
      i := i + 1;
    }
    assert list[..i] == list;
    wt := wt + Share(PARAM_SIZE, size);
  }

  /** The score of the variable at the other end of an entry. */
  function NeighbourScore(bgp: Patterns, core: set<nat>, dealed: set<nat>, pre2num: nat -> nat, candidateSize: nat -> nat, e: SoEdge): (r: real)
    ensures r >= 1.0
  {
    Score(bgp, core, dealed, pre2num, e.nei, candidateSize(e.nei))
  }

  /** Of the entries before the given one, the chosen one is the first open one whose neighbour scores highest. */
  ghost predicate Chosen(bgp: Patterns, core: set<nat>, dealed: set<nat>, pre2num: nat -> nat, candidateSize: nat -> nat, list: seq<SoEdge>,
                         i: nat, maxi: int, max: real)
  {
    && i <= |list| && -1 <= maxi < i
    && (if maxi == -1 then max == 0.0
        else Open(core, dealed, list[maxi]) && max == NeighbourScore(bgp, core, dealed, pre2num, candidateSize, list[maxi]))
    && forall k :: 0 <= k < i && Open(core, dealed, list[k]) ==>
         Beaten(NeighbourScore(bgp, core, dealed, pre2num, candidateSize, list[k]), max, k < maxi)
  }

  predicate Beaten(score: real, max: real, strictly: bool) {
    score <= max && (strictly ==> score < max)
  }

  lemma ChosenNext(bgp: Patterns, core: set<nat>, dealed: set<nat>, pre2num: nat -> nat, candidateSize: nat -> nat, list: seq<SoEdge>,
                   i: nat, maxi: int, max: real)
    requires Chosen(bgp, core, dealed, pre2num, candidateSize, list, i, maxi, max) && i < |list|
    ensures var tmp := NeighbourScore(bgp, core, dealed, pre2num, candidateSize, list[i]);
            var better := Open(core, dealed, list[i]) && max < tmp;
            Chosen(bgp, core, dealed, pre2num, candidateSize, list, i + 1, if better then i else maxi, if better then tmp else max)
  {
  }

  lemma SomethingChosen(bgp: Patterns, core: set<nat>, dealed: set<nat>, pre2num: nat -> nat, candidateSize: nat -> nat, list: seq<SoEdge>,
                        maxi: int, max: real)
    requires Chosen(bgp, core, dealed, pre2num, candidateSize, list, |list|, maxi, max)
    ensures maxi == -1 <==> forall e :: e in list ==> !Open(core, dealed, e)
  {
    if maxi == -1 {
      forall e | e in list ensures !Open(core, dealed, e) {
        var k :| 0 <= k < |list| && list[k] == e;
        assert NeighbourScore(bgp, core, dealed, pre2num, candidateSize, list[k]) >= 1.0;
      }
    }
  }

  /** The first open edge to a neighbour of the highest score, or minus one if no edge is open. */
  /** The variable has no entry over a pattern that is not dealt with, to a core variable. */
  ghost predicate NoneOpen(bgp: Patterns, core: set<nat>, dealed: set<nat>, id: nat) {
    forall e :: e in SoEdges(bgp, id) ==> !Open(core, dealed, e)
  }

  /** The entry is open, and its neighbour scores more than those of the open entries before it, and no less than those after it. */
  ghost predicate BestEntry(bgp: Patterns, core: set<nat>, dealed: set<nat>, pre2num: nat -> nat, candidateSize: nat -> nat, id: nat, i: int) {
    && 0 <= i < |SoEdges(bgp, id)| && Open(core, dealed, SoEdges(bgp, id)[i])
    && forall k :: 0 <= k < |SoEdges(bgp, id)| && Open(core, dealed, SoEdges(bgp, id)[k]) ==>
         Beaten(NeighbourScore(bgp, core, dealed, pre2num, candidateSize, SoEdges(bgp, id)[k]),
                NeighbourScore(bgp, core, dealed, pre2num, candidateSize, SoEdges(bgp, id)[i]), k < i)
  }

  /** A turn of the walk: the top of the stack is popped if nothing is open at it, and else its best neighbour is joined and pushed. */
  ghost predicate Turned(bgp: Patterns, core: set<nat>, dealed: set<nat>, pre2num: nat -> nat, candidateSize: nat -> nat,
                         stack: seq<nat>, joined: set<nat>, stackAfter: seq<nat>, joinedAfter: set<nat>)
    requires stack != []
  {
    var init, id := stack[..|stack| - 1], stack[|stack| - 1];
    if NoneOpen(bgp, core, dealed, id) then stackAfter == init && joinedAfter == joined
    else exists i :: BestEntry(bgp, core, dealed, pre2num, candidateSize, id, i) && Visits(stack, joined, SoEdges(bgp, id)[i].nei, stackAfter, joinedAfter)
  }

  ghost predicate Visits(stack: seq<nat>, joined: set<nat>, next: nat, stackAfter: seq<nat>, joinedAfter: set<nat>) {
    stackAfter == stack + [next] && joinedAfter == joined + {next}
  }

  method ChooseNextNode(bgp: Patterns, core: set<nat>, dealed: set<nat>, id: nat, pre2num: nat -> nat, candidateSize: nat -> nat)
    returns (maxi: int)
    ensures -1 <= maxi < |SoEdges(bgp, id)|
    ensures maxi == -1 <==> NoneOpen(bgp, core, dealed, id)
    ensures maxi >= 0 ==> BestEntry(bgp, core, dealed, pre2num, candidateSize, id, maxi)
  {
    var list := SoEdges(bgp, id);
    maxi := -1;
    var max, i := 0.0, 0;
    while i < |list|
      invariant 0 <= i <= |list| && Chosen(bgp, core, dealed, pre2num, candidateSize, list, i, maxi, max)
    {
      ChosenNext(bgp, core, dealed, pre2num, candidateSize, list, i, maxi, max);
      if !list[i].neiConst && list[i].nei in core && list[i].index !in dealed {
        EntriesInRange(bgp, list[i].nei);
        var tmp := ScoreNode(bgp, core, dealed, list[i].nei, pre2num, candidateSize(list[i].nei));
        if max < tmp {
          max, maxi := tmp, i;
        }
      }
      i := i + 1;
    }
    SomethingChosen(bgp, core, dealed, pre2num, candidateSize, list, maxi, max);
  }

  lemma EntriesInRange(bgp: Patterns, v: nat)
    ensures forall e :: e in SoEdges(bgp, v) ==> e.index < |bgp|
  {
    forall e | e in SoEdges(bgp, v) ensures e.index < |bgp| {
      InSoEdges(bgp, v, e);
    }
  }

  /** A variable without open edges is closed. */
  lemma NoOpenEdge(bgp: Patterns, core: set<nat>, dealed: set<nat>, joined: set<nat>, id: nat)
    requires Dealt(bgp, core, dealed, joined) && id in joined && joined <= core
    requires forall e :: e in SoEdges(bgp, id) ==> !Open(core, dealed, e)
    ensures Closed(bgp, core, joined, id)
  {
    forall i | 0 <= i < |bgp| && bgp[i].Within(core) && bgp[i].About(id) ensures bgp[i].Within(joined) {
      var e := if bgp[i].s == id then SoEdge(i, false, bgp[i].o, false) else SoEdge(i, true, bgp[i].s, false);
      assert e in EdgesOfPattern(bgp[i], i, id);
      InSoEdges(bgp, id, e);
    }
  }

  /** An open edge of a joined variable leads to a variable that is not joined yet. */
  lemma OpenLeadsOut(bgp: Patterns, g: Graph, core: set<nat>, dealed: set<nat>, joined: set<nat>, id: nat, e: SoEdge)
    requires IsJoinGraph(g, bgp) && Dealt(bgp, core, dealed, joined) && id in joined && joined <= core
    requires e in SoEdges(bgp, id) && Open(core, dealed, e)
    ensures e.nei in core && e.nei !in joined && g.Adjacent(id, e.nei) && g.Touches(joined, e.nei)
  {
    InSoEdges(bgp, id, e);
    assert LinkedBy(bgp[e.index], id, e.nei);
    assert g.Adjacent(id, e.nei);
  }

  /** Marks the patterns of all columns. */
  method MarkDealt(dealed: set<nat>, columns: seq<seq<SoEdge>>) returns (after: set<nat>)
    ensures after == dealed + EntryIndices(columns)
  {
    after := dealed;
    var i := 0;
    while i < |columns|
      invariant 0 <= i <= |columns| && after == dealed + EntryIndices(columns[..i])
    {
      var j := 0;
      ghost var before := after;
      while j < |columns[i]|
        invariant 0 <= j <= |columns[i]| && after == before + (set e: SoEdge | e in columns[i][..j] :: e.index)
      {
        assert columns[i][..j + 1] == columns[i][..j] + [columns[i][j]];
        after := after + {columns[i][j].index};
        j := j + 1;
      }
      assert columns[i][..j] == columns[i];
      IndicesSnoc(columns, i);
      i := i + 1;
    }
    assert columns[..i] == columns;
  }

  ghost function EntryIndices(columns: seq<seq<SoEdge>>): set<nat> {
    set c: nat, e: SoEdge | c < |columns| && e in columns[c] :: e.index
  }

  lemma IndicesSnoc(columns: seq<seq<SoEdge>>, i: nat)
    requires i < |columns|
    ensures EntryIndices(columns[..i + 1]) == EntryIndices(columns[..i]) + (set e: SoEdge | e in columns[i] :: e.index)
  {
    var left, right := EntryIndices(columns[..i + 1]), EntryIndices(columns[..i]) + (set e: SoEdge | e in columns[i] :: e.index);
    forall x ensures x in left <==> x in right {
      if x in left {
        var c: nat, e: SoEdge :| c < i + 1 && e in columns[..i + 1][c] && e.index == x;
        assert c < i ==> e in columns[..i][c];
      }
      if x in EntryIndices(columns[..i]) {
        var c: nat, e: SoEdge :| c < i && e in columns[..i][c] && e.index == x;
        assert e in columns[..i + 1][c];
      }
      if x in (set e: SoEdge | e in columns[i] :: e.index) {
        var e :| e in columns[i] && e.index == x;
        assert e in columns[..i + 1][i];
      }
    }
  }

  /** The marked patterns are those that join the new variable to the table's variables. */
  lemma MarkedPatterns(bgp: Patterns, idPos: PositionValue, posId: PositionValue, width: nat, next: nat, i: nat)
    requires QueryOk(bgp) && MutuallyInverse(idPos, posId, width) && next !in idPos && i < |bgp|
    ensures i in EntryIndices(ColumnsFor(bgp, posId, width, next)) <==> JoinsTo(bgp[i], idPos.Keys, next)
  {
    var columns := ColumnsFor(bgp, posId, width, next);
    if i in EntryIndices(columns) {
      var c: nat, e: SoEdge :| c < |columns| && e in columns[c] && e.index == i;
      InJoinedEntries(SoEdges(bgp, next), {posId[c]}, e);
      InJoinedEntries(SoEdges(bgp, next), idPos.Keys, e);
      EntryMeaning(bgp, idPos.Keys, next, e);
    }
    if JoinsTo(bgp[i], idPos.Keys, next) {
      var e := EntryOfPattern(bgp, i, idPos.Keys, next);
      InJoinedEntries(SoEdges(bgp, next), idPos.Keys, e);
      var c := idPos[e.nei];
      InJoinedEntries(SoEdges(bgp, next), {posId[c]}, e);
      assert e in columns[c];
    }
  }

  lemma DealtAfter(bgp: Patterns, core: set<nat>, dealed: set<nat>, idPos: PositionValue, posId: PositionValue, next: nat)
    requires QueryOk(bgp) && MutuallyInverse(idPos, posId, |posId|) && next !in idPos && next in core && idPos.Keys <= core
    requires Dealt(bgp, core, dealed, idPos.Keys)
    ensures Dealt(bgp, core, dealed + EntryIndices(ColumnsFor(bgp, posId, |posId|, next)), idPos.Keys + {next})
  {
    forall i | 0 <= i < |bgp| && bgp[i].Within(core)
      ensures i in dealed + EntryIndices(ColumnsFor(bgp, posId, |posId|, next)) <==> bgp[i].Within(idPos.Keys + {next})
    {
      MarkedPatterns(bgp, idPos, posId, |posId|, next, i);
      assert bgp[i] in bgp;
    }
  }

  lemma CoreExtends(g: Graph, core: set<nat>, joined: set<nat>, next: nat)
    requires g.Valid() && core <= g.nodes && joined <= core && CoreGraph(g, core).Connected(joined)
    requires next in core && next !in joined && g.Touches(joined, next)
    ensures CoreGraph(g, core).Connected(joined + {next})
  {
    var gc := CoreGraph(g, core);
    var a :| a in joined && g.Adjacent(a, next);
    assert gc.Adjacent(a, next) && gc.Touches(joined, next);
    forall x, y | x in core && y in core && gc.Adjacent(x, y) ensures gc.Adjacent(y, x) {
      assert g.Adjacent(x, y) && g.Adjacent(y, x);
    }
    ExtendConnected(gc, joined, next);
  }

  /** Joining a variable over an open edge and pushing it keeps the state of the walk. */
  lemma WalkGrows(bgp: Patterns, g: Graph, core: set<nat>, start: nat, joined: set<nat>, dealed: set<nat>, stack: seq<nat>, next: nat, after: set<nat>)
    requires IsJoinGraph(g, bgp) && core <= g.nodes && WalkState(bgp, g, core, start, joined, dealed, stack)
    requires next in core && next !in joined && g.Touches(joined, next) && Dealt(bgp, core, after, joined + {next})
    ensures WalkState(bgp, g, core, start, joined + {next}, after, stack + [next])
  {
    CoreExtends(g, core, joined, next);
    forall v | v in joined + {next} && v !in stack + [next] ensures Closed(bgp, core, joined + {next}, v) {
      assert Closed(bgp, core, joined, v);
    }
  }

  lemma WalkPops(bgp: Patterns, g: Graph, core: set<nat>, start: nat, joined: set<nat>, dealed: set<nat>, stack: seq<nat>)
    requires stack != [] && WalkState(bgp, g, core, start, joined, dealed, stack)
    requires forall e :: e in SoEdges(bgp, stack[|stack| - 1]) ==> !Open(core, dealed, e)
    ensures WalkState(bgp, g, core, start, joined, dealed, stack[..|stack| - 1])
  {
    var top := stack[|stack| - 1];
    assert top in stack && stack == stack[..|stack| - 1] + [top];
    NoOpenEdge(bgp, core, dealed, joined, top);
  }

  /** A solution of the whole, restricted to a part, solves the part. */
  lemma PartSolved(env: Env, bgp: Patterns, part: set<nat>, whole: set<nat>, mu: Assignment)
    requires QueryOk(bgp) && part <= whole && mu.Keys == whole && Satisfies(env, InsideConstraints(bgp, whole), mu)
    ensures Restricted(mu, part).Keys == part && Satisfies(env, InsideConstraints(bgp, part), Restricted(mu, part))
  {
    assert InsideConstraints(bgp, part) <= InsideConstraints(bgp, whole);
    assert forall c :: c in InsideConstraints(bgp, part) ==> c.Variables() <= part;
    assert Satisfies(env, InsideConstraints(bgp, part), mu);
    PlanMeaning.RestrictedSatisfies(env, InsideConstraints(bgp, part), part, mu);
  }

  ghost predicate Unsolvable(env: Env, bgp: Patterns, variables: set<nat>) {
    forall mu: Assignment :: mu.Keys == variables ==> !Satisfies(env, InsideConstraints(bgp, variables), mu)
  }

  /** If part of the component has no solutions, the component has none. */
  lemma NoSolutions(env: Env, bgp: Patterns, part: set<nat>, whole: set<nat>)
    requires QueryOk(bgp) && part <= whole && Unsolvable(env, bgp, part)
    ensures Unsolvable(env, bgp, whole)
  {
    forall mu: Assignment | mu.Keys == whole ensures !Satisfies(env, InsideConstraints(bgp, whole), mu) {
      if Satisfies(env, InsideConstraints(bgp, whole), mu) {
        PartSolved(env, bgp, part, whole, mu);
      }
    }
  }

  lemma EmptyTableNoSolutions(env: Env, constraints: set<Constraint>, idPos: PositionValue, posId: PositionValue)
    requires Exact(env, constraints, idPos, posId, [])
    ensures forall mu: Assignment :: mu.Keys == idPos.Keys ==> !Satisfies(env, constraints, mu)
  {
    forall mu: Assignment | mu.Keys == idPos.Keys ensures !Satisfies(env, constraints, mu) {
      ExactMeansEachSolutionOnce(env, constraints, idPos, posId, [], mu);
    }
  }

  /** The state of a join object during its walk. */
  ghost predicate Walks(j: Join, env: Env, bgp: Patterns, g: Graph, core: set<nat>, start: nat)
    reads j
  {
    && j.newStart == End && j.idPos == |j.pos2id|
    && WalksWith(env, bgp, g, core, start, j.id2pos, j.pos2id, j.dealedTriple, j.mystack, j.currentTable)
  }

  ghost predicate WalksWith(env: Env, bgp: Patterns, g: Graph, core: set<nat>, start: nat, idPos: PositionValue, posId: PositionValue,
                            dealed: set<nat>, stack: seq<nat>, table: seq<Row>)
  {
    && MutuallyInverse(idPos, posId, |posId|)
    && WalkState(bgp, g, core, start, idPos.Keys, dealed, stack)
    && TableExact(env, bgp, idPos, posId, table)
  }

  lemma StartState(env: Env, bgp: Patterns, g: Graph, core: set<nat>, start: nat, dealed: set<nat>)
    requires QueryOk(bgp) && env.CachesSorted() && start in env.caches && core <= g.nodes && start in core
    requires forall i :: 0 <= i < |bgp| && bgp[i].Within(core) ==> i !in dealed
    ensures WalkState(bgp, g, core, start, {start}, dealed, [start])
    ensures TableExact(env, bgp, map[start := 0], map[0 := start], Extended([], env.caches[start]))
  {
    SingleConnected(CoreGraph(g, core), start);
    forall i | 0 <= i < |bgp| ensures !bgp[i].Within({start}) {
      assert bgp[i] in bgp;
    }
    assert InsideConstraints(bgp, {start}) == {};
    var step := JoinNode(FeedOneNode(start, true, []), true, false);
    ScanExact(env, step);
    assert InitialIdPos(step) == map[start := 0] && InitialPosId(step) == map[0 := start];
    assert (map[start := 0]).Keys == {start};
  }

  /** What growing the table by a variable does to its meaning. */
  lemma GrowthMeaning(env: Env, bgp: Patterns, g: Graph, idPos: PositionValue, posId: PositionValue, rows: seq<Row>, next: nat)
    requires QueryOk(bgp) && EnvFits(env, bgp) && IsJoinGraph(g, bgp) && TableExact(env, bgp, idPos, posId, rows)
    requires next !in idPos && g.Touches(idPos.Keys, next)
    ensures ColumnsOk(bgp, ColumnsFor(bgp, posId, |posId|, next)) && FlatEdges(bgp, ColumnsFor(bgp, posId, |posId|, next)) != []
    ensures var edges := FlatEdges(bgp, ColumnsFor(bgp, posId, |posId|, next));
            && (forall row :: row in rows ==> AllReadable(edges, idPos, row))
            && TableExact(env, bgp, AddedIdPos(idPos, posId, next), AddedPosId(posId, next), AllGrown(ChoiceOf(env, edges, next, idPos), rows))
  {
    WalkEdges(env, bgp, g, idPos, posId, next);
    var edges := FlatEdges(bgp, ColumnsFor(bgp, posId, |posId|, next));
    GrownExact(env, InsideConstraints(bgp, idPos.Keys), edges, idPos, posId, rows, next);
    assert AddedIdPos(idPos, posId, next).Keys == idPos.Keys + {next};
  }

  lemma KeptExact(env: Env, bgp: Patterns, idPos: PositionValue, posId: PositionValue, valid: Choice, rows: seq<Row>)
    requires TableExact(env, bgp, idPos, posId, AllGrown(valid, rows))
    ensures TableExact(env, bgp, idPos, posId, Kept(valid, rows) + Appended(valid, rows))
    ensures AllGrown(valid, rows) == [] ==> Unsolvable(env, bgp, idPos.Keys)
  {
    GrownAsBag(valid, rows);
    ExactPermutes(env, InsideConstraints(bgp, idPos.Keys), idPos, posId, AllGrown(valid, rows), Kept(valid, rows) + Appended(valid, rows));
    if AllGrown(valid, rows) == [] {
      EmptyTableNoSolutions(env, InsideConstraints(bgp, idPos.Keys), idPos, posId);
    }
  }

  /** Grows the table by one variable, in place. */
  method GrowByNext(j: Join, env: Env, bgp: Patterns, ghost g: Graph, next: nat) returns (found: bool)
    requires QueryOk(bgp) && EnvFits(env, bgp) && env.CachesSorted() && IsJoinGraph(g, bgp) && j.newStart == End && j.idPos == |j.pos2id|
    requires TableExact(env, bgp, j.id2pos, j.pos2id, j.currentTable) && next !in j.id2pos && g.Touches(j.id2pos.Keys, next)
    modifies j`currentTable, j`newStart
    ensures found ==> TableExact(env, bgp, AddedIdPos(j.id2pos, j.pos2id, next), AddedPosId(j.pos2id, next), j.currentTable)
    ensures !found ==> Unsolvable(env, bgp, AddedIdPos(j.id2pos, j.pos2id, next).Keys)
  {
    ghost var rows := j.currentTable;
    GrowthMeaning(env, bgp, g, j.id2pos, j.pos2id, rows, next);
    var columns := ColumnsFor(bgp, j.pos2id, j.idPos, next);
    found := j.JoinTwo(env, bgp, columns, next);
    KeptExact(env, bgp, AddedIdPos(j.id2pos, j.pos2id, next), AddedPosId(j.pos2id, next),
              ChoiceOf(env, FlatEdges(bgp, columns), next, j.id2pos), rows);
  }

  lemma StateAfter(bgp: Patterns, g: Graph, core: set<nat>, start: nat, idPos: PositionValue, posId: PositionValue, dealed: set<nat>,
                   stack: seq<nat>, next: nat, nextIdPos: PositionValue, nextPosId: PositionValue, nextDealed: set<nat>)
    requires QueryOk(bgp) && IsJoinGraph(g, bgp) && core <= g.nodes && next in core && next !in idPos && g.Touches(idPos.Keys, next)
    requires MutuallyInverse(idPos, posId, |posId|) && WalkState(bgp, g, core, start, idPos.Keys, dealed, stack)
    requires nextIdPos == AddedIdPos(idPos, posId, next) && nextPosId == AddedPosId(posId, next)
    requires nextDealed == dealed + EntryIndices(ColumnsFor(bgp, posId, |posId|, next))
    ensures MutuallyInverse(nextIdPos, nextPosId, |nextPosId|) && |nextPosId| == |posId| + 1
    ensures nextIdPos.Keys == idPos.Keys + {next}
    ensures WalkState(bgp, g, core, start, nextIdPos.Keys, nextDealed, stack + [next])
  {
    DealtAfter(bgp, core, dealed, idPos, posId, next);
    WalkGrows(bgp, g, core, start, idPos.Keys, dealed, stack, next, nextDealed);
    AddNewNodeInverse(idPos, posId, |posId|, next);
    DomainSize(nextPosId, |posId| + 1);
    assert nextIdPos.Keys == idPos.Keys + {next};
  }

  /** Marks the joined patterns, gives the variable its column, and pushes it. */
  method RecordNext(j: Join, bgp: Patterns, next: nat)
    requires j.idPos == |j.pos2id| && forall i :: 0 <= i < j.idPos ==> i in j.pos2id
    modifies j`dealedTriple, j`newStart, j`id2pos, j`pos2id, j`idPos, j`mystack
    ensures j.newStart == End && j.idPos == |old(j.pos2id)| + 1 && j.mystack == old(j.mystack) + [next]
    ensures j.id2pos == AddedIdPos(old(j.id2pos), old(j.pos2id), next) && j.pos2id == AddedPosId(old(j.pos2id), next)
    ensures j.dealedTriple == old(j.dealedTriple) + EntryIndices(ColumnsFor(bgp, old(j.pos2id), |old(j.pos2id)|, next))
  {
    var columns := ColumnsFor(bgp, j.pos2id, j.idPos, next);
    var marked := MarkDealt(j.dealedTriple, columns);
    j.dealedTriple := marked;
    j.newStart := End;
    j.AddIdPosMapping(next);
    j.mystack := j.mystack + [next];
  }

  /** Joins one variable: the table stays exact, or the query turns out to have no solutions. */
  method JoinNext(j: Join, env: Env, bgp: Patterns, ghost g: Graph, ghost core: set<nat>, ghost start: nat, next: nat) returns (found: bool)
    requires QueryOk(bgp) && EnvFits(env, bgp) && env.CachesSorted() && IsJoinGraph(g, bgp) && core <= g.nodes
    requires Walks(j, env, bgp, g, core, start) && next in core && next !in j.id2pos && g.Touches(j.id2pos.Keys, next)
    modifies j
    ensures found ==> Walks(j, env, bgp, g, core, start) && j.id2pos.Keys == old(j.id2pos).Keys + {next} && j.mystack == old(j.mystack) + [next]
    ensures !found ==> Unsolvable(env, bgp, old(j.id2pos).Keys + {next})
  {
    assert AddedIdPos(j.id2pos, j.pos2id, next).Keys == j.id2pos.Keys + {next};
    found := GrowByNext(j, env, bgp, g, next);
    if found {
      FinishNext(j, env, bgp, g, core, start, next);
    }
  }

  /** With the table grown, the records follow. */
  method FinishNext(j: Join, ghost env: Env, bgp: Patterns, ghost g: Graph, ghost core: set<nat>, ghost start: nat, next: nat)
    requires QueryOk(bgp) && IsJoinGraph(g, bgp) && core <= g.nodes && next in core && next !in j.id2pos && g.Touches(j.id2pos.Keys, next)
    requires j.idPos == |j.pos2id| && MutuallyInverse(j.id2pos, j.pos2id, |j.pos2id|)
    requires WalkState(bgp, g, core, start, j.id2pos.Keys, j.dealedTriple, j.mystack)
    requires TableExact(env, bgp, AddedIdPos(j.id2pos, j.pos2id, next), AddedPosId(j.pos2id, next), j.currentTable)
    modifies j`dealedTriple, j`newStart, j`id2pos, j`pos2id, j`idPos, j`mystack
    ensures Walks(j, env, bgp, g, core, start) && j.id2pos.Keys == old(j.id2pos).Keys + {next} && j.mystack == old(j.mystack) + [next]
  {
    FinishState(env, bgp, g, core, start, j.id2pos, j.pos2id, j.dealedTriple, j.mystack, next, j.currentTable);
    RecordNext(j, bgp, next);
  }

  lemma FinishState(env: Env, bgp: Patterns, g: Graph, core: set<nat>, start: nat, idPos: PositionValue, posId: PositionValue,
                    dealed: set<nat>, stack: seq<nat>, next: nat, table: seq<Row>)
    requires QueryOk(bgp) && IsJoinGraph(g, bgp) && core <= g.nodes && next in core && next !in idPos && g.Touches(idPos.Keys, next)
    requires MutuallyInverse(idPos, posId, |posId|) && WalkState(bgp, g, core, start, idPos.Keys, dealed, stack)
    requires TableExact(env, bgp, AddedIdPos(idPos, posId, next), AddedPosId(posId, next), table)
    ensures WalksWith(env, bgp, g, core, start, AddedIdPos(idPos, posId, next), AddedPosId(posId, next),
                      dealed + EntryIndices(ColumnsFor(bgp, posId, |posId|, next)), stack + [next], table)
    ensures |AddedPosId(posId, next)| == |posId| + 1 && AddedIdPos(idPos, posId, next).Keys == idPos.Keys + {next}
  {
    StateAfter(bgp, g, core, start, idPos, posId, dealed, stack, next, AddedIdPos(idPos, posId, next), AddedPosId(posId, next),
               dealed + EntryIndices(ColumnsFor(bgp, posId, |posId|, next)));
  }

  /**
   The walk: from the start variable over open edges, one variable at a time. It ends, never joins a
   variable twice, and if it succeeds it has joined exactly the start's component of the core: the table
   then holds every solution of the component's patterns once, and all these patterns are dealt with.
   If it fails, the component has no solutions.
   */
  method MultiJoin(j: Join, env: Env, bgp: Patterns, ghost g: Graph, core: set<nat>, start: nat, pre2num: nat -> nat, candidateSize: nat -> nat)
    returns (ok: bool)
    requires QueryOk(bgp) && EnvFits(env, bgp) && env.CachesSorted() && IsJoinGraph(g, bgp) && core <= g.nodes
    requires start in core && start in env.caches
    requires j.currentTable == [] && j.id2pos == map[] && j.pos2id == map[] && j.idPos == 0 && j.mystack == [] && j.newStart == End
    requires forall i :: 0 <= i < |bgp| && bgp[i].Within(core) ==> i !in j.dealedTriple
    modifies j
    ensures ok ==> j.id2pos.Keys == Component(g, core, start) && MutuallyInverse(j.id2pos, j.pos2id, j.idPos) && j.newStart == End
    ensures ok ==> Exact(env, InsideConstraints(bgp, Component(g, core, start)), j.id2pos, j.pos2id, j.currentTable)
    ensures ok ==> Dealt(bgp, core, j.dealedTriple, Component(g, core, start))
    ensures !ok ==> Unsolvable(env, bgp, Component(g, core, start))
  {
    StartWalk(j, env, bgp, g, core, start);
    ok := true;
    while ok && j.mystack != []
      invariant ok ==> Walks(j, env, bgp, g, core, start)
      invariant !ok ==> Unsolvable(env, bgp, Component(g, core, start))
      decreases ok, |core| - |j.id2pos.Keys|, |j.mystack|
    {
      ok := Advance(j, env, bgp, g, core, start, pre2num, candidateSize);
    }
    if ok {
      EmptyStackMeansComponent(bgp, g, core, start, j.id2pos.Keys, j.dealedTriple);
    }
  }

  /** The first table: the candidates of the start variable. */
  method StartWalk(j: Join, env: Env, bgp: Patterns, ghost g: Graph, ghost core: set<nat>, start: nat)
    requires QueryOk(bgp) && env.CachesSorted() && core <= g.nodes && start in core && start in env.caches
    requires j.currentTable == [] && j.id2pos == map[] && j.pos2id == map[] && j.idPos == 0 && j.mystack == [] && j.newStart == End
    requires forall i :: 0 <= i < |bgp| && bgp[i].Within(core) ==> i !in j.dealedTriple
    modifies j
    ensures Walks(j, env, bgp, g, core, start)
  {
    StartState(env, bgp, g, core, start, j.dealedTriple);
    var startTable := ExecutorFilter.ConvertToTable(env.caches[start]);
    j.currentTable := startTable;
    j.AddIdPosMapping(start);
    j.mystack := [start];
    assert j.id2pos == map[start := 0] && j.pos2id == map[0 := start];
  }

  /** One turn of the walk: pop a variable without open edges, or join the best neighbour. */
  method Advance(j: Join, env: Env, bgp: Patterns, ghost g: Graph, core: set<nat>, ghost start: nat, pre2num: nat -> nat, candidateSize: nat -> nat)
    returns (ok: bool)
    requires QueryOk(bgp) && EnvFits(env, bgp) && env.CachesSorted() && IsJoinGraph(g, bgp) && core <= g.nodes
    requires Walks(j, env, bgp, g, core, start) && j.mystack != []
    modifies j
    ensures ok ==> Walks(j, env, bgp, g, core, start)
    ensures ok ==> |j.id2pos.Keys| <= |core|
    ensures ok ==> |j.id2pos.Keys| > |old(j.id2pos).Keys| || (j.id2pos == old(j.id2pos) && |j.mystack| < |old(j.mystack)|)
    ensures ok ==> Turned(bgp, core, old(j.dealedTriple), pre2num, candidateSize, old(j.mystack), old(j.id2pos).Keys, j.mystack, j.id2pos.Keys)
    ensures !ok ==> Unsolvable(env, bgp, Component(g, core, start))
  {
    var id := j.mystack[|j.mystack| - 1];
    ghost var joined, stack, dealed := j.id2pos.Keys, j.mystack, j.dealedTriple;
    var maxi := ChooseNextNode(bgp, core, j.dealedTriple, id, pre2num, candidateSize);
    if maxi == -1 {
      WalkPops(bgp, g, core, start, joined, j.dealedTriple, j.mystack);
      j.mystack := j.mystack[..|j.mystack| - 1];
      NotLarger(core, joined);
      return true;
    }
    var next := SoEdges(bgp, id)[maxi].nei;
    OpenLeadsOut(bgp, g, core, j.dealedTriple, joined, id, SoEdges(bgp, id)[maxi]);
    NextSmaller(core, joined, next);
    ok := JoinNext(j, env, bgp, g, core, start, next);
    if ok {
      assert Visits(stack, joined, SoEdges(bgp, id)[maxi].nei, j.mystack, j.id2pos.Keys);
      assert BestEntry(bgp, core, dealed, pre2num, candidateSize, id, maxi);
    } else {
      FailedPart(env, bgp, g, core, start, joined, next);
    }
  }

  lemma NotLarger(core: set<nat>, joined: set<nat>)
    requires joined <= core
    ensures |joined| <= |core|
  {
    if joined < core {
      SubsetSmaller(joined, core);
    } else {
      assert joined == core;
    }
  }

  lemma NextSmaller(core: set<nat>, joined: set<nat>, next: nat)
    requires joined <= core && next in core && next !in joined
    ensures |joined + {next}| == |joined| + 1 <= |core|
  {
    if joined + {next} < core {
      SubsetSmaller(joined + {next}, core);
    } else {
      assert joined + {next} == core;
    }
  }

  lemma FailedPart(env: Env, bgp: Patterns, g: Graph, core: set<nat>, start: nat, joined: set<nat>, next: nat)
    requires QueryOk(bgp) && IsJoinGraph(g, bgp) && core <= g.nodes && joined <= core && start in joined && CoreGraph(g, core).Connected(joined)
    requires next in core && next !in joined && g.Touches(joined, next)
    requires Unsolvable(env, bgp, joined + {next})
    ensures Unsolvable(env, bgp, Component(g, core, start))
  {
    CoreExtends(g, core, joined, next);
    JoinedInComponent(bgp, g, core, start, joined + {next});
    NoSolutions(env, bgp, joined + {next}, Component(g, core, start));
  }
}
