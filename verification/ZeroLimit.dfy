/**
 A limit of zero: the depth-first search stops at the first record that gets to the second layer, and
 returns what that record leads to, which is more than a limit of zero asks for.
 */
module ZeroLimit {
  import opened Rdf
  import opened TableOperator
  import opened Semantics
  import opened StepSpec
  import opened PlanChain
  import opened ChainLayouts
  import opened DepthSpec

  /** What one record makes of the next layer's table. */
  ghost function NextOf(env: Env, steps: seq<StepOperation>, layer: nat, rows: seq<Row>, i: nat): (next: seq<Row>)
    requires ChainFits(steps) && 0 < layer < |steps| && Shaped(ColumnsAt(steps, layer - 1), rows) && i < |rows|
    ensures Shaped(ColumnsAt(steps, layer), next)
  {
    assert rows[i] in rows;
    assert Shaped(ColumnsAt(steps, layer - 1), [rows[i]]);
    LayerRows(env, steps, layer, [rows[i]])
  }

  /** The rows that come of one record. */
  ghost function LeadsTo(env: Env, steps: seq<StepOperation>, layer: nat, rows: seq<Row>, i: nat): seq<Row>
    requires ChainFits(steps) && 0 < layer < |steps| && Shaped(ColumnsAt(steps, layer - 1), rows) && i < |rows|
  {
    var next := NextOf(env, steps, layer, rows, i);
    RestRows(env, steps, layer + 1, next)
  }

  /** The records before the given one do not get to the next layer; it does, or there is none, and nothing comes of it. */
  ghost predicate StopsAt(env: Env, steps: seq<StepOperation>, layer: nat, rows: seq<Row>, i: nat)
    requires ChainFits(steps) && 0 < layer < |steps| && Shaped(ColumnsAt(steps, layer - 1), rows)
  {
    && i <= |rows| && (forall j :: 0 <= j < i ==> NextOf(env, steps, layer, rows, j) == [])
    && (i < |rows| ==> NextOf(env, steps, layer, rows, i) != [] && LeadsTo(env, steps, layer, rows, i) == [])
  }

  lemma NextOfTail(env: Env, steps: seq<StepOperation>, layer: nat, rows: seq<Row>, i: nat)
    requires ChainFits(steps) && 0 < layer < |steps| && Shaped(ColumnsAt(steps, layer - 1), rows) && 0 < i < |rows|
    ensures Shaped(ColumnsAt(steps, layer - 1), rows[1..])
    ensures NextOf(env, steps, layer, rows, i) == NextOf(env, steps, layer, rows[1..], i - 1)
  {
    FirstAndRest(ColumnsAt(steps, layer - 1), rows);
    assert [rows[i]] == [rows[1..][i - 1]];
  }

  lemma StopsInTail(env: Env, steps: seq<StepOperation>, layer: nat, rows: seq<Row>, i: nat)
    requires ChainFits(steps) && 0 < layer < |steps| && Shaped(ColumnsAt(steps, layer - 1), rows) && 0 < i <= |rows|
    requires NextOf(env, steps, layer, rows, 0) == []
    ensures Shaped(ColumnsAt(steps, layer - 1), rows[1..])
    ensures StopsAt(env, steps, layer, rows, i) <==> StopsAt(env, steps, layer, rows[1..], i - 1)
  {
    FirstAndRest(ColumnsAt(steps, layer - 1), rows);
    forall k | 0 < k < |rows| ensures NextOf(env, steps, layer, rows, k) == NextOf(env, steps, layer, rows[1..], k - 1) {
      NextOfTail(env, steps, layer, rows, k);
    }
    if StopsAt(env, steps, layer, rows, i) {
      forall j | 0 <= j < i - 1 ensures NextOf(env, steps, layer, rows[1..], j) == [] {
        assert NextOf(env, steps, layer, rows, j + 1) == [];
      }
    }
    if StopsAt(env, steps, layer, rows[1..], i - 1) {
      forall j | 0 <= j < i ensures NextOf(env, steps, layer, rows, j) == [] {
        assert j > 0 ==> NextOf(env, steps, layer, rows[1..], j - 1) == [];
      }
    }
  }

  /** The first record decides if it gets to the next layer, and otherwise the rest does. */
  lemma HeadDecides(env: Env, steps: seq<StepOperation>, layer: nat, rows: seq<Row>)
    requires ChainFits(steps) && 0 < layer < |steps| && Shaped(ColumnsAt(steps, layer - 1), rows) && rows != []
    ensures Shaped(ColumnsAt(steps, layer - 1), rows[1..])
    ensures NextOf(env, steps, layer, rows, 0) != [] ==>
              (FirstBlock(env, steps, layer, rows) == [] <==> LeadsTo(env, steps, layer, rows, 0) == [])
    ensures NextOf(env, steps, layer, rows, 0) == [] ==> FirstBlock(env, steps, layer, rows) == FirstBlock(env, steps, layer, rows[1..])
  {
    FirstAndRest(ColumnsAt(steps, layer - 1), rows);
    FirstDownPrefix(env, steps, layer + 1, NextOf(env, steps, layer, rows, 0));
  }

  lemma StopsAtHead(env: Env, steps: seq<StepOperation>, layer: nat, rows: seq<Row>, i: nat)
    requires ChainFits(steps) && 0 < layer < |steps| && Shaped(ColumnsAt(steps, layer - 1), rows) && rows != []
    requires StopsAt(env, steps, layer, rows, i)
    ensures i == 0 <==> NextOf(env, steps, layer, rows, 0) != []
    ensures i == 0 ==> LeadsTo(env, steps, layer, rows, 0) == []
  {
  }

  lemma {:induction false} StoppedFindsNothing(env: Env, steps: seq<StepOperation>, layer: nat, rows: seq<Row>, i: nat)
    requires ChainFits(steps) && 0 < layer < |steps| && Shaped(ColumnsAt(steps, layer - 1), rows)
    requires StopsAt(env, steps, layer, rows, i)
    ensures FirstBlock(env, steps, layer, rows) == []
    decreases |rows|
  {
    if rows != [] {
      HeadDecides(env, steps, layer, rows);
      StopsAtHead(env, steps, layer, rows, i);
      if i > 0 {
        StopsInTail(env, steps, layer, rows, i);
        StoppedFindsNothing(env, steps, layer, rows[1..], i - 1);
      }
    }
  }

  lemma {:induction false} NothingFoundStops(env: Env, steps: seq<StepOperation>, layer: nat, rows: seq<Row>) returns (i: nat)
    requires ChainFits(steps) && 0 < layer < |steps| && Shaped(ColumnsAt(steps, layer - 1), rows)
    requires FirstBlock(env, steps, layer, rows) == []
    ensures StopsAt(env, steps, layer, rows, i)
    decreases |rows|
  {
    i := 0;
    if rows != [] {
      HeadDecides(env, steps, layer, rows);
      if NextOf(env, steps, layer, rows, 0) == [] {
        var k := NothingFoundStops(env, steps, layer, rows[1..]);
        i := k + 1;
        StopsInTail(env, steps, layer, rows, i);
      }
    }
  }

  /** Nothing is returned exactly if no record gets to the next layer, or the first that does leads to no row. */
  lemma ZeroLimitMetIff(env: Env, steps: seq<StepOperation>, layer: nat, rows: seq<Row>)
    requires ChainFits(steps) && 0 < layer < |steps| && Shaped(ColumnsAt(steps, layer - 1), rows)
    ensures FirstBlock(env, steps, layer, rows) == [] <==> exists i :: StopsAt(env, steps, layer, rows, i)
  {
    if FirstBlock(env, steps, layer, rows) == [] {
      var i := NothingFoundStops(env, steps, layer, rows);
    }
    if i :| StopsAt(env, steps, layer, rows, i) {
      StoppedFindsNothing(env, steps, layer, rows, i);
    }
  }

  // ---- how much is returned ----

  /** Rows that are all a single record of the last layer but one leads to. */
  ghost predicate OfOneRecord(env: Env, steps: seq<StepOperation>, last: nat, found: seq<Row>)
    requires ChainFits(steps) && 0 < last == |steps| - 1
  {
    exists rec: Row :: Shaped(ColumnsAt(steps, last - 1), [rec]) && found == LayerRows(env, steps, last, [rec])
  }

  lemma BottomOfOne(env: Env, steps: seq<StepOperation>, last: nat, rec: Row)
    requires ChainFits(steps) && 0 < last == |steps| - 1 && Shaped(ColumnsAt(steps, last - 1), [rec])
    ensures var next := LayerRows(env, steps, last, [rec]);
            FirstDown(env, steps, last + 1, next) == next && OfOneRecord(env, steps, last, next)
  {
  }

  lemma FirstDownFrom(env: Env, steps: seq<StepOperation>, layer: nat, rows: seq<Row>) returns (next: seq<Row>)
    requires ChainFits(steps) && 0 < layer < |steps| && Shaped(ColumnsAt(steps, layer - 1), rows) && rows != []
    ensures Shaped(ColumnsAt(steps, layer - 1), [rows[0]]) && Shaped(ColumnsAt(steps, layer - 1), rows[1..])
    ensures next == LayerRows(env, steps, layer, [rows[0]])
    ensures FirstDown(env, steps, layer, rows) in {FirstDown(env, steps, layer + 1, next), FirstDown(env, steps, layer, rows[1..])}
  {
    FirstAndRest(ColumnsAt(steps, layer - 1), rows);
    next := LayerRows(env, steps, layer, [rows[0]]);
  }

  lemma {:induction false} FirstDownOfOne(env: Env, steps: seq<StepOperation>, layer: nat, rows: seq<Row>)
    requires ChainFits(steps) && 0 < layer < |steps| && Shaped(ColumnsAt(steps, layer - 1), rows)
    ensures var found := FirstDown(env, steps, layer, rows);
            found != [] ==> OfOneRecord(env, steps, |steps| - 1, found)
    decreases |steps| - layer, |rows|
  {
    if rows != [] {
      var next := FirstDownFrom(env, steps, layer, rows);
      FirstDownOfOne(env, steps, layer, rows[1..]);
      if layer + 1 < |steps| {
        FirstDownOfOne(env, steps, layer + 1, next);
      } else {
        BottomOfOne(env, steps, layer, rows[0]);
      }
    }
  }

  /** Under a limit of zero the rows are all that one record of the last layer but one leads to, if there are any. */
  lemma {:induction false} FirstBlockOfOne(env: Env, steps: seq<StepOperation>, layer: nat, rows: seq<Row>)
    requires ChainFits(steps) && 0 < layer < |steps| && Shaped(ColumnsAt(steps, layer - 1), rows)
    ensures var found := FirstBlock(env, steps, layer, rows);
            found != [] ==> OfOneRecord(env, steps, |steps| - 1, found)
    decreases |rows|
  {
    if rows != [] {
      FirstAndRest(ColumnsAt(steps, layer - 1), rows);
      var next := LayerRows(env, steps, layer, [rows[0]]);
      if next == [] {
        FirstBlockOfOne(env, steps, layer, rows[1..]);
      } else if layer + 1 < |steps| {
        FirstDownOfOne(env, steps, layer + 1, next);
      } else {
        BottomOfOne(env, steps, layer, rows[0]);
      }
    }
  }

  // ---- an input ----

  /** Two steps: scan variable 0, then join variable 1 over predicate 7. */
  predicate ScanAndJoin(steps: seq<StepOperation>) {
    |steps| == 2 && JoinsOver(steps[0], 0, true, []) && JoinsOver(steps[1], 1, true, [OverSeven(0, 1)])
  }

  lemma ScanAndJoinFits(steps: seq<StepOperation>)
    requires ScanAndJoin(steps)
    ensures ChainFits(steps) && ColumnsAt(steps, 0) == Columns(map[0 := 0], map[0 := 0])
  {
    assert ColumnsAt(steps, 0) == Columns(map[0 := 0], map[0 := 0]);
    EdgeFits(steps[1], 1, true, 0, {0});
    assert FitsAt(steps, 1);
  }

  lemma OneCandidate(env: Env, idPos: PositionValue, row: Row)
    requires env.g == {Triple(5, 7, 6)} && 1 !in env.caches && idPos == map[0 := 0] && row == [5]
    ensures AllReadable([OverSeven(0, 1)], idPos, row) && 6 in Candidates(env, [OverSeven(0, 1)], 1, idPos, row)
  {
    ListThrough(env.g, 0, 1, idPos, row);
    assert OverSeven(0, 1) in [OverSeven(0, 1)];
    InCandidates(env, [OverSeven(0, 1)], 1, idPos, row, 6);
  }

  lemma OneRowNext(env: Env, step: StepOperation, idPos: PositionValue)
    requires env.g == {Triple(5, 7, 6)} && 1 !in env.caches && idPos == map[0 := 0] && JoinsOver(step, 1, true, [OverSeven(0, 1)])
    ensures AllStepReadable(step, idPos, [[5]]) && StepRows(env, step, idPos, [[5]]) != []
  {
    OneCandidate(env, idPos, [5]);
    StepRowsSingle(env, step, idPos, [5]);
  }

  lemma OneScanned(env: Env, step: StepOperation)
    requires env.caches == map[0 := [5]] && JoinsOver(step, 0, true, [])
    ensures StepReadable(step, map[], []) && InitialRows(env, step) == [[5]]
  {
    var none: Row := [];
    assert Extended(none, [5])[0] == none + [5] == [5];
    assert Extended(none, [5]) == [[5]];
  }

  /** One stored triple and one candidate: a limit of zero, and a row is returned. */
  lemma ZeroLimitReturnsRow(env: Env, steps: seq<StepOperation>, found: seq<Row>)
    requires env.g == {Triple(5, 7, 6)} && env.caches == map[0 := [5]] && ScanAndJoin(steps)
    ensures ChainFits(steps)
    ensures LimitedTo(env, steps, 0, found) ==> found != []
  {
    ScanAndJoinFits(steps);
    InitialShape(env, steps[0]);
    OneScanned(env, steps[0]);
    var layer, rows := 1, InitialRows(env, steps[0]);
    OneRowNext(env, steps[layer], ColumnsAt(steps, layer - 1).idPos);
    HeadDecides(env, steps, layer, rows);
    assert LeadsTo(env, steps, layer, rows, 0) == NextOf(env, steps, layer, rows, 0);
  }
}
