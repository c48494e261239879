/**
 The predicate-variable pass of the older join after the walk: one round for each predicate variable. Its
 patterns have a constant or a variable outside the core at one end at least, so the walk passes them by.
 */
module OldJoinPredicates {
  import opened Rdf
  import opened TableOperator
  import opened Semantics
  import opened StepSpec
  import opened ExactSteps
  import opened ExactJoins
  import opened BasicGraphPattern
  import opened JoinGraph
  import opened QueryAnswer
  import opened TableGrowth
  import opened OldJoin
  import opened OldJoinWalk
  import opened OldJoinOutput
  import opened OldJoinAnswer
  import opened OldJoinBasic

  // ---- what a round does to the table ----

  lemma InRowPlus(row: Row, ids: seq<nat>, r: Row)
    ensures r in RowPlus(row, ids) <==> |r| == |row| + 1 && r[..|row|] == row && r[|row|] in ids
  {
    assert RowPlus(row, ids) == Extended(row, ids);
    InExtended(row, ids, r);
  }

  ghost predicate GrownFrom(valid: Choice, rows: seq<Row>, r: Row) {
    r != [] && r[..|r| - 1] in rows && r[|r| - 1] in valid(r[..|r| - 1])
  }

  lemma {:induction false} InAllGrown(valid: Choice, rows: seq<Row>, r: Row)
    ensures r in AllGrown(valid, rows) <==> GrownFrom(valid, rows, r)
    decreases |rows|
  {
    if rows != [] {
      var init, last := rows[..|rows| - 1], rows[|rows| - 1];
      assert rows == init + [last];
      InAllGrown(valid, init, r);
      InRowPlus(last, valid(last), r);
    }
  }

  lemma DistinctAppend(a: seq<Row>, b: seq<Row>)
    requires NoDuplicates(a) && NoDuplicates(b) && forall r :: r in a ==> r !in b
    ensures NoDuplicates(a + b)
  {
    forall i, j | 0 <= i < j < |a + b| ensures (a + b)[i] != (a + b)[j] {
      if i < |a| <= j {
        assert (a + b)[i] in a && (a + b)[j] in b;
      }
    }
  }

  lemma {:induction false} AllGrownDistinct(valid: Choice, rows: seq<Row>)
    requires NoDuplicates(rows) && forall row :: row in rows ==> StrictlyIncreasing(valid(row))
    ensures NoDuplicates(AllGrown(valid, rows))
    decreases |rows|
  {
    if rows != [] {
      var init, last := rows[..|rows| - 1], rows[|rows| - 1];
      AllGrownDistinct(valid, init);
      assert NoDuplicates(RowPlus(last, valid(last))) by {
        ExtendedNoDuplicates(last, valid(last));
        assert RowPlus(last, valid(last)) == Extended(last, valid(last));
      }
      forall r | r in AllGrown(valid, init) ensures r !in RowPlus(last, valid(last)) {
        InAllGrown(valid, init, r);
        InRowPlus(last, valid(last), r);
      }
      DistinctAppend(AllGrown(valid, init), RowPlus(last, valid(last)));
    }
  }

  lemma PermutedRows(a: seq<Row>, b: seq<Row>)
    requires multiset(a) == multiset(b)
    ensures forall r :: r in a <==> r in b
    ensures NoDuplicates(a) ==> NoDuplicates(b)
  {
    forall r ensures r in a <==> r in b {
      assert (r in a <==> r in multiset(a)) && (r in b <==> r in multiset(b));
    }
    if NoDuplicates(a) {
      forall x ensures multiset(b)[x] <= 1 {
        CountOfDistinct(a, x);
      }
      DistinctOfCounts(b);
    }
  }

  // ---- all rounds ----

  predicate EndFits(e: PreEnd, width: nat) {
    e.Column? ==> e.pos < width
  }

  predicate RoundFits(triples: seq<PreTriple>, width: nat) {
    triples != [] && forall t :: t in triples ==> EndFits(t.sub, width) && EndFits(t.obj, width)
  }

  predicate RoundsFit(rounds: seq<seq<PreTriple>>, width: nat) {
    forall k :: 0 <= k < |rounds| ==> RoundFits(rounds[k], width)
  }

  /** The patterns of a round allow a predicate beside the first columns of a row. */
  ghost predicate LabelFits(g: Store, triples: seq<PreTriple>, width: nat, row: Row, p: nat)
    requires RoundFits(triples, width) && width <= |row|
  {
    PreAllowed(g, triples, row[..width], p)
  }

  ghost predicate Labelled(g: Store, rounds: seq<seq<PreTriple>>, width: nat, r: Row, n: nat)
    requires RoundsFit(rounds, width) && n <= |rounds|
  {
    |r| == width + n && forall k :: 0 <= k < n ==> LabelFits(g, rounds[k], width, r, r[width + k])
  }

  ghost predicate InGrown(g: Store, rounds: seq<seq<PreTriple>>, width: nat, before: seq<Row>, n: nat, r: Row)
    requires RoundsFit(rounds, width) && n <= |rounds|
  {
    Labelled(g, rounds, width, r, n) && r[..width] in before
  }

  /** The table after some rounds: the rows it had, with every choice of predicates their patterns allow. */
  ghost predicate GrownBy(g: Store, rounds: seq<seq<PreTriple>>, width: nat, before: seq<Row>, n: nat, table: seq<Row>)
    requires RoundsFit(rounds, width) && n <= |rounds|
  {
    && (forall r :: r in table <==> InGrown(g, rounds, width, before, n, r))
    && (NoDuplicates(before) ==> NoDuplicates(table))
  }

  /** Whether a pattern allows a predicate depends on the first columns only. */
  lemma AllowedByPrefix(g: Store, triples: seq<PreTriple>, width: nat, row: Row, p: nat)
    requires RoundFits(triples, width) && width <= |row|
    ensures AllInRow(triples, row) && (PreAllowed(g, triples, row, p) <==> LabelFits(g, triples, width, row, p))
  {
    forall t | t in triples ensures PreHolds(g, t, row, p) <==> PreHolds(g, t, row[..width], p) {
    }
  }

  lemma LabelledNext(g: Store, rounds: seq<seq<PreTriple>>, width: nat, r: Row, n: nat)
    requires RoundsFit(rounds, width) && n < |rounds| && |r| == width + n + 1
    ensures Labelled(g, rounds, width, r, n + 1) <==> Labelled(g, rounds, width, r[..width + n], n) && LabelFits(g, rounds[n], width, r, r[width + n])
  {
    assert r[..width + n][..width] == r[..width];
    forall k | 0 <= k < n
      ensures LabelFits(g, rounds[k], width, r, r[width + k]) <==> LabelFits(g, rounds[k], width, r[..width + n], r[..width + n][width + k])
    {
    }
  }

  /** One more label: the row before it was labelled, and the label is among the round's choices. */
  lemma LabelledStep(g: Store, rounds: seq<seq<PreTriple>>, width: nat, r: Row, n: nat)
    requires RoundsFit(rounds, width) && n < |rounds| && |r| == width + n + 1
    ensures Labelled(g, rounds, width, r, n + 1) <==>
              Labelled(g, rounds, width, r[..width + n], n) && r[width + n] in PreChoice(g, rounds[n])(r[..width + n])
  {
    var row, p := r[..width + n], r[width + n];
    LabelledNext(g, rounds, width, r, n);
    AllowedByPrefix(g, rounds[n], width, row, p);
    PreChoiceMeaning(g, rounds[n], row);
    assert row[..width] == r[..width];
  }

  lemma InNextRound(g: Store, rounds: seq<seq<PreTriple>>, width: nat, before: seq<Row>, n: nat, table: seq<Row>, r: Row)
    requires RoundsFit(rounds, width) && n < |rounds|
    requires r != [] ==> (r[..|r| - 1] in table <==> InGrown(g, rounds, width, before, n, r[..|r| - 1]))
    ensures GrownFrom(PreChoice(g, rounds[n]), table, r) <==> InGrown(g, rounds, width, before, n + 1, r)
  {
    if |r| == width + n + 1 {
      var valid, row := PreChoice(g, rounds[n]), r[..width + n];
      var chosen := r[width + n] in valid(row);
      assert GrownFrom(valid, table, r) <==> InGrown(g, rounds, width, before, n, row) && chosen;
      assert row[..width] == r[..width];
      assert Labelled(g, rounds, width, r, n + 1) <==> Labelled(g, rounds, width, row, n) && chosen by {
        LabelledStep(g, rounds, width, r, n);
      }
    }
  }

  lemma RoundGrows(g: Store, rounds: seq<seq<PreTriple>>, width: nat, before: seq<Row>, n: nat, table: seq<Row>, after: seq<Row>)
    requires RoundsFit(rounds, width) && n < |rounds| && GrownBy(g, rounds, width, before, n, table)
    requires multiset(after) == multiset(AllGrown(PreChoice(g, rounds[n]), table))
    ensures GrownBy(g, rounds, width, before, n + 1, after)
  {
    var valid := PreChoice(g, rounds[n]);
    PermutedRows(AllGrown(valid, table), after);
    forall r ensures r in after <==> InGrown(g, rounds, width, before, n + 1, r) {
      InAllGrown(valid, table, r);
      InNextRound(g, rounds, width, before, n, table, r);
    }
    if NoDuplicates(before) {
      forall row | row in table ensures StrictlyIncreasing(valid(row)) {
        assert InGrown(g, rounds, width, before, n, row);
        AllowedByPrefix(g, rounds[n], width, row, 0);
        PreChoiceMeaning(g, rounds[n], row);
      }
      AllGrownDistinct(valid, table);
    }
  }

  lemma RowsReady(g: Store, rounds: seq<seq<PreTriple>>, width: nat, before: seq<Row>, n: nat, table: seq<Row>)
    requires RoundsFit(rounds, width) && n < |rounds| && GrownBy(g, rounds, width, before, n, table)
    ensures rounds[n] != [] && forall row :: row in table ==> AllInRow(rounds[n], row)
  {
    forall row | row in table ensures AllInRow(rounds[n], row) {
      assert InGrown(g, rounds, width, before, n, row);
      AllowedByPrefix(g, rounds[n], width, row, 0);
    }
  }

  lemma NoRoundYet(g: Store, rounds: seq<seq<PreTriple>>, width: nat, before: seq<Row>)
    requires RoundsFit(rounds, width) && forall row :: row in before ==> |row| == width
    ensures GrownBy(g, rounds, width, before, 0, before)
  {
    forall r: Row ensures r in before <==> InGrown(g, rounds, width, before, 0, r) {
      assert |r| == width ==> r[..width] == r;
    }
  }

  /** The whole pass: each predicate variable gets the next column, and its predicates fill it. */
  method PreVarHandler(j: Join, g: Store, rounds: seq<seq<PreTriple>>, ghost width: nat, varNum: nat)
    requires j.newStart == End && RoundsFit(rounds, width) && forall row :: row in j.currentTable ==> |row| == width
    modifies j`currentTable, j`newStart, j`id2pos, j`pos2id, j`idPos
    ensures j.newStart == End && j.idPos == old(j.idPos) + |rounds|
    ensures GrownBy(g, rounds, width, old(j.currentTable), |rounds|, j.currentTable)
    ensures forall i :: old(j.idPos) <= i < j.idPos ==> i in j.pos2id && j.pos2id[i] == varNum + (i - old(j.idPos))
    ensures forall i :: i in old(j.pos2id) && i < old(j.idPos) ==> i in j.pos2id && j.pos2id[i] == old(j.pos2id)[i]
  {
    ghost var before := j.currentTable;
    NoRoundYet(g, rounds, width, before);
    for n := 0 to |rounds|
      invariant j.newStart == End && j.idPos == old(j.idPos) + n
      invariant GrownBy(g, rounds, width, before, n, j.currentTable)
      invariant forall i :: old(j.idPos) <= i < j.idPos ==> i in j.pos2id && j.pos2id[i] == varNum + (i - old(j.idPos))
      invariant forall i :: i in old(j.pos2id) && i < old(j.idPos) ==> i in j.pos2id && j.pos2id[i] == old(j.pos2id)[i]
    {
      NextRound(j, g, rounds, width, before, n, varNum + n);
    }
  }

  method NextRound(j: Join, g: Store, rounds: seq<seq<PreTriple>>, ghost width: nat, ghost before: seq<Row>, n: nat, column: nat)
    requires j.newStart == End && RoundsFit(rounds, width) && n < |rounds| && GrownBy(g, rounds, width, before, n, j.currentTable)
    modifies j`currentTable, j`newStart, j`id2pos, j`pos2id, j`idPos
    ensures j.newStart == End && j.idPos == old(j.idPos) + 1 && j.pos2id == old(j.pos2id)[old(j.idPos) := column]
    ensures GrownBy(g, rounds, width, before, n + 1, j.currentTable)
  {
    ghost var table := j.currentTable;
    RowsReady(g, rounds, width, before, n, table);
    RoundAsBag(j, g, rounds[n], column);
    RoundGrows(g, rounds, width, before, n, table, j.currentTable);
  }

  method RoundAsBag(j: Join, g: Store, triples: seq<PreTriple>, column: nat)
    requires triples != [] && j.newStart == End && forall row :: row in j.currentTable ==> AllInRow(triples, row)
    modifies j`currentTable, j`newStart, j`id2pos, j`pos2id, j`idPos
    ensures j.newStart == End && j.idPos == old(j.idPos) + 1 && j.pos2id == old(j.pos2id)[old(j.idPos) := column]
    ensures multiset(j.currentTable) == multiset(AllGrown(PreChoice(g, triples), old(j.currentTable)))
  {
    PreVarRound(j, g, triples, column);
  }

  // ---- after the walk ----

  /** The subject or object of a pattern with a predicate variable: a core variable, a constant, or a variable without a column. */
  datatype VarEnd = CoreVar(v: nat) | Constant(id: nat) | Outside

  datatype VarTriple = VarTriple(sub: VarEnd, obj: VarEnd)

  predicate InCore(e: VarEnd, core: set<nat>) {
    e.CoreVar? ==> e.v in core
  }

  /** The patterns of a predicate variable: the walk follows none of them, for at most one end is a core variable. */
  predicate PassedBy(triples: seq<VarTriple>, core: set<nat>) {
    triples != [] && forall t :: t in triples ==> InCore(t.sub, core) && InCore(t.obj, core) && !(t.sub.CoreVar? && t.obj.CoreVar?)
  }

  function ColumnEnd(e: VarEnd, idPos: PositionValue): PreEnd
    requires InCore(e, idPos.Keys)
  {
    match e
    case CoreVar(v) => Column(idPos[v])
    case Constant(id) => Fixed(id)
    case Outside => Free
  }

  function InColumns(triples: seq<VarTriple>, idPos: PositionValue): seq<PreTriple>
    requires PassedBy(triples, idPos.Keys)
  {
    seq(|triples|, i requires 0 <= i < |triples| =>
      assert triples[i] in triples; PreTriple(ColumnEnd(triples[i].sub, idPos), ColumnEnd(triples[i].obj, idPos)))
  }

  function AllInColumns(rounds: seq<seq<VarTriple>>, idPos: PositionValue): seq<seq<PreTriple>>
    requires forall k :: 0 <= k < |rounds| ==> PassedBy(rounds[k], idPos.Keys)
  {
    seq(|rounds|, k requires 0 <= k < |rounds| => InColumns(rounds[k], idPos))
  }

  predicate EndIs(e: VarEnd, mu: Assignment, x: nat) {
    match e
    case CoreVar(v) => v in mu && mu[v] == x
    case Constant(id) => id == x
    case Outside => true
  }

  /** Some stored triple has the predicate and agrees with the ends that are known. */
  ghost predicate PredicateHolds(g: Store, t: VarTriple, mu: Assignment, p: nat) {
    !(t.sub.Outside? && t.obj.Outside?) && exists x: Triple :: x in g && x.p == p && EndIs(t.sub, mu, x.s) && EndIs(t.obj, mu, x.o)
  }

  /** The predicates given to the predicate variables fit all their patterns. */
  ghost predicate PredicatesHold(g: Store, rounds: seq<seq<VarTriple>>, mu: Assignment, predicates: seq<nat>) {
    |predicates| == |rounds| && forall k, t :: 0 <= k < |rounds| && t in rounds[k] ==> PredicateHolds(g, t, mu, predicates[k])
  }

  lemma PredicateInColumns(g: Store, t: VarTriple, idPos: PositionValue, row: Row, p: nat)
    requires InCore(t.sub, idPos.Keys) && InCore(t.obj, idPos.Keys) && forall v :: v in idPos ==> idPos[v] < |row|
    ensures var c := PreTriple(ColumnEnd(t.sub, idPos), ColumnEnd(t.obj, idPos));
            && EndInRow(c.sub, row) && EndInRow(c.obj, row)
            && (PreHolds(g, c, row, p) <==> PredicateHolds(g, t, AssignmentOf(idPos, row), p))
  {
    var c, mu := PreTriple(ColumnEnd(t.sub, idPos), ColumnEnd(t.obj, idPos)), AssignmentOf(idPos, row);
    forall x: Triple
      ensures EndIs(t.sub, mu, x.s) <==> (!c.sub.Free? ==> x.s == EndId(c.sub, row))
      ensures EndIs(t.obj, mu, x.o) <==> (!c.obj.Free? ==> x.o == EndId(c.obj, row))
    {
    }
  }

  lemma LabelMeaning(g: Store, triples: seq<VarTriple>, idPos: PositionValue, width: nat, r: Row, p: nat)
    requires PassedBy(triples, idPos.Keys) && width <= |r| && forall v :: v in idPos ==> idPos[v] < width
    ensures RoundFits(InColumns(triples, idPos), width)
    ensures LabelFits(g, InColumns(triples, idPos), width, r, p) <==>
              forall t :: t in triples ==> PredicateHolds(g, t, AssignmentOf(idPos, r[..width]), p)
  {
    var columns, row := InColumns(triples, idPos), r[..width];
    forall c | c in columns ensures EndFits(c.sub, width) && EndFits(c.obj, width) {
      var i :| 0 <= i < |columns| && columns[i] == c;
      assert triples[i] in triples;
    }
    forall i | 0 <= i < |triples| ensures PreHolds(g, columns[i], row, p) <==> PredicateHolds(g, triples[i], AssignmentOf(idPos, row), p) {
      assert triples[i] in triples;
      PredicateInColumns(g, triples[i], idPos, row, p);
    }
    if LabelFits(g, columns, width, r, p) {
      forall t | t in triples ensures PredicateHolds(g, t, AssignmentOf(idPos, row), p) {
        var i :| 0 <= i < |triples| && triples[i] == t;
        assert columns[i] in columns;
      }
    }
    if forall t :: t in triples ==> PredicateHolds(g, t, AssignmentOf(idPos, row), p) {
      forall c | c in columns ensures PreHolds(g, c, row, p) {
        var i :| 0 <= i < |columns| && columns[i] == c;
        assert triples[i] in triples;
      }
    }
  }

  lemma LabelsMeaning(g: Store, rounds: seq<seq<VarTriple>>, idPos: PositionValue, width: nat, r: Row)
    requires forall k :: 0 <= k < |rounds| ==> PassedBy(rounds[k], idPos.Keys)
    requires |r| == width + |rounds| && forall v :: v in idPos ==> idPos[v] < width
    ensures RoundsFit(AllInColumns(rounds, idPos), width)
    ensures Labelled(g, AllInColumns(rounds, idPos), width, r, |rounds|) <==>
              PredicatesHold(g, rounds, AssignmentOf(idPos, r[..width]), r[width..])
  {
    forall k | 0 <= k < |rounds|
      ensures RoundFits(AllInColumns(rounds, idPos)[k], width)
      ensures LabelFits(g, AllInColumns(rounds, idPos)[k], width, r, r[width + k]) <==>
                forall t :: t in rounds[k] ==> PredicateHolds(g, t, AssignmentOf(idPos, r[..width]), r[width..][k])
    {
      LabelMeaning(g, rounds[k], idPos, width, r, r[width + k]);
    }
  }

  /** A row of the final table: a solution of the core, and predicates that fit it. */
  ghost predicate ShowsSolution(env: Env, bgp: Patterns, core: set<nat>, rounds: seq<seq<VarTriple>>, idPos: PositionValue, width: nat, r: Row)
    requires forall v :: v in idPos ==> idPos[v] < width
  {
    |r| == width + |rounds| && SolvesWith(env, bgp, core, rounds, AssignmentOf(idPos, r[..width]), r[width..])
  }

  ghost predicate SolvesWith(env: Env, bgp: Patterns, core: set<nat>, rounds: seq<seq<VarTriple>>, mu: Assignment, predicates: seq<nat>) {
    Satisfies(env, InsideConstraints(bgp, core), mu) && PredicatesHold(env.g, rounds, mu, predicates)
  }

  /** The table after the walk and all rounds. */
  ghost predicate LabelledTable(env: Env, bgp: Patterns, core: set<nat>, rounds: seq<seq<VarTriple>>, idPos: PositionValue, posId: PositionValue,
                                table: seq<Row>)
  {
    && idPos.Keys == core && MutuallyInverse(idPos, posId, |posId|) && NoDuplicates(table)
    && forall r :: r in table <==> ShowsSolution(env, bgp, core, rounds, idPos, |posId|, r)
  }

  lemma TableLabelled(env: Env, bgp: Patterns, core: set<nat>, rounds: seq<seq<VarTriple>>, idPos: PositionValue, posId: PositionValue,
                      before: seq<Row>, table: seq<Row>)
    requires (forall k :: 0 <= k < |rounds| ==> PassedBy(rounds[k], core)) && idPos.Keys == core
    requires Exact(env, InsideConstraints(bgp, core), idPos, posId, before)
    requires RoundsFit(AllInColumns(rounds, idPos), |posId|)
    requires GrownBy(env.g, AllInColumns(rounds, idPos), |posId|, before, |rounds|, table)
    ensures LabelledTable(env, bgp, core, rounds, idPos, posId, table)
  {
    forall r ensures r in table <==> ShowsSolution(env, bgp, core, rounds, idPos, |posId|, r) {
      assert r in table <==> InGrown(env.g, AllInColumns(rounds, idPos), |posId|, before, |rounds|, r);
      if |r| == |posId| + |rounds| {
        LabelsMeaning(env.g, rounds, idPos, |posId|, r);
      }
    }
  }

  lemma ColumnsFit(rounds: seq<seq<VarTriple>>, idPos: PositionValue, width: nat)
    requires (forall k :: 0 <= k < |rounds| ==> PassedBy(rounds[k], idPos.Keys)) && forall v :: v in idPos ==> idPos[v] < width
    ensures RoundsFit(AllInColumns(rounds, idPos), width)
  {
    LabelsMeaning({}, rounds, idPos, width, seq(width + |rounds|, i => 0));
  }

  /**
   The walk over the core and the rounds for the predicate variables: the table holds the solutions of the
   core, each with every choice of predicates its patterns allow and none twice; or the core has no solutions.
   */
  method WalkAndLabel(j: Join, env: Env, bgp: Patterns, ghost g: Graph, core: set<nat>, start: nat, pre2num: nat -> nat, candidateSize: nat -> nat,
                      rounds: seq<seq<VarTriple>>, varNum: nat)
    returns (ok: bool, ghost idPos: PositionValue, ghost posId: PositionValue)
    requires QueryOk(bgp) && EnvFits(env, bgp) && env.CachesSorted() && IsJoinGraph(g, bgp) && core <= g.nodes
    requires start in core && start in env.caches && Component(g, core, start) == core && Unstarted(j)
    requires forall k :: 0 <= k < |rounds| ==> PassedBy(rounds[k], core)
    modifies j
    ensures ok ==> LabelledTable(env, bgp, core, rounds, idPos, posId, j.currentTable) && j.idPos == |posId| + |rounds|
    ensures !ok ==> Unsolvable(env, bgp, core)
  {
    ok := WalkCore(j, env, bgp, g, core, start, pre2num, candidateSize);
    idPos, posId := j.id2pos, j.pos2id;
    if ok {
      LabelTable(j, env, bgp, core, rounds, varNum);
    }
  }

  method LabelTable(j: Join, env: Env, ghost bgp: Patterns, ghost core: set<nat>, rounds: seq<seq<VarTriple>>, varNum: nat)
    requires (forall k :: 0 <= k < |rounds| ==> PassedBy(rounds[k], core)) && j.id2pos.Keys == core && j.newStart == End
    requires Exact(env, InsideConstraints(bgp, core), j.id2pos, j.pos2id, j.currentTable)
    modifies j`currentTable, j`newStart, j`id2pos, j`pos2id, j`idPos
    ensures j.idPos == old(j.idPos) + |rounds|
    ensures LabelledTable(env, bgp, core, rounds, old(j.id2pos), old(j.pos2id), j.currentTable)
  {
    ghost var idPos, posId, before := j.id2pos, j.pos2id, j.currentTable;
    ColumnsFit(rounds, idPos, |posId|);
    PreVarHandler(j, env.g, AllInColumns(rounds, j.id2pos), |posId|, varNum);
    TableLabelled(env, bgp, core, rounds, idPos, posId, before, j.currentTable);
  }

  ghost predicate RowShows(idPos: PositionValue, posId: PositionValue, r: Row, mu: Assignment, predicates: seq<nat>) {
    |posId| <= |r| && Denotes(idPos, posId, r[..|posId|], mu) && r[|posId|..] == predicates
  }

  /** A solution of the core and fitting predicates are shown by exactly one row, and rows show nothing else. */
  lemma EachChoiceOnce(env: Env, bgp: Patterns, core: set<nat>, rounds: seq<seq<VarTriple>>, idPos: PositionValue, posId: PositionValue,
                       table: seq<Row>, mu: Assignment, predicates: seq<nat>)
    requires LabelledTable(env, bgp, core, rounds, idPos, posId, table) && mu.Keys == core && |predicates| == |rounds|
    ensures SolvesWith(env, bgp, core, rounds, mu, predicates) <==> exists i :: 0 <= i < |table| && RowShows(idPos, posId, table[i], mu, predicates)
    ensures forall i, k :: 0 <= i < |table| && 0 <= k < |table| ==>
              (RowShows(idPos, posId, table[i], mu, predicates) && RowShows(idPos, posId, table[k], mu, predicates) ==> i == k)
  {
    RowAssignmentInverse(idPos, posId, |posId|, mu);
    var row := RowOf(posId, |posId|, mu);
    var r := row + predicates;
    assert r[..|posId|] == row && r[|posId|..] == predicates;
    if SolvesWith(env, bgp, core, rounds, mu, predicates) {
      assert ShowsSolution(env, bgp, core, rounds, idPos, |posId|, r);
      var i :| 0 <= i < |table| && table[i] == r;
    }
    forall i | 0 <= i < |table| && RowShows(idPos, posId, table[i], mu, predicates)
      ensures table[i] == r && SolvesWith(env, bgp, core, rounds, mu, predicates)
    {
      assert table[i] in table;
      OnlyRow(idPos, posId, table[i][..|posId|], mu);
      assert table[i] == table[i][..|posId|] + table[i][|posId|..];
    }
  }

  lemma OnlyRow(idPos: PositionValue, posId: PositionValue, row: Row, mu: Assignment)
    requires MutuallyInverse(idPos, posId, |posId|) && mu.Keys == idPos.Keys && Denotes(idPos, posId, row, mu)
    ensures row == RowOf(posId, |posId|, mu)
  {
    forall k | 0 <= k < |posId| ensures row[k] == mu[posId[k]] {
      assert posId[k] in idPos && idPos[posId[k]] == k;
    }
  }

  /** A record comes from a row of the final table. */
  ghost predicate WrittenFrom(env: Env, bgp: Patterns, core: set<nat>, rounds: seq<seq<VarTriple>>, idPos: PositionValue, posId: PositionValue,
                              l: Layout, r: Row, x: seq<nat>)
    requires MutuallyInverse(idPos, posId, |posId|) && l.Valid()
  {
    ShowsSolution(env, bgp, core, rounds, idPos, |posId|, r) && |r| == |l.targets| && x in RowRecords(env.g, l, r)
  }

  /** Writes the labelled table out: a record is written exactly if a solution of the core and fitting predicates emit it. */
  method WriteLabelled(w: ResultWriter, env: Env, ghost bgp: Patterns, ghost core: set<nat>, ghost rounds: seq<seq<VarTriple>>,
                       ghost idPos: PositionValue, ghost posId: PositionValue, l: Layout, rows: seq<Row>)
    requires LabelledTable(env, bgp, core, rounds, idPos, posId, rows)
    requires l.Valid() && |l.targets| == |posId| + |rounds| && w.record.Length == l.recordLen
    modifies w`resultList, w.record
    ensures forall x :: x in w.resultList <==> exists r :: WrittenFrom(env, bgp, core, rounds, idPos, posId, l, r, x)
  {
    LabelledRecords(env, bgp, core, rounds, idPos, posId, l, rows);
    CopyToResult(w, env.g, l, rows);
  }

  lemma LabelledRecords(env: Env, bgp: Patterns, core: set<nat>, rounds: seq<seq<VarTriple>>, idPos: PositionValue, posId: PositionValue,
                        l: Layout, rows: seq<Row>)
    requires LabelledTable(env, bgp, core, rounds, idPos, posId, rows) && l.Valid() && |l.targets| == |posId| + |rounds|
    ensures forall r :: r in rows ==> |r| == |l.targets|
    ensures forall x :: x in TableRecords(env.g, l, rows) <==> exists r :: WrittenFrom(env, bgp, core, rounds, idPos, posId, l, r, x)
  {
    forall r | r in rows ensures |r| == |l.targets| {
      assert ShowsSolution(env, bgp, core, rounds, idPos, |posId|, r);
    }
    forall x ensures x in TableRecords(env.g, l, rows) <==> exists r :: WrittenFrom(env, bgp, core, rounds, idPos, posId, l, r, x) {
      InTableRecords(env.g, l, rows, x);
      if r :| r in rows && x in RowRecords(env.g, l, r) {
        assert WrittenFrom(env, bgp, core, rounds, idPos, posId, l, r, x);
      }
      if r :| WrittenFrom(env, bgp, core, rounds, idPos, posId, l, r, x) {
        assert r in rows;
      }
    }
  }
}
