/**
 What a depth-first search is to return, stated without counters and early exits: the first rows of the
 chain as the limit says, and for a limit of zero what the first record that leads anywhere leads to.
 */
module DepthSpec {
  import opened TableOperator
  import opened Semantics
  import opened StepSpec
  import opened PlanChain

  /** As many rows as the limit allows, from the beginning. */
  function FirstOf(rows: seq<Row>, limit: nat): (first: seq<Row>)
    ensures first <= rows && (first == rows || (|first| == limit < |rows|))
  {
    if |rows| <= limit then rows else rows[..limit]
  }

  /** The table of the next layer. */
  ghost function LayerRows(env: Env, steps: seq<StepOperation>, layer: nat, rows: seq<Row>): (next: seq<Row>)
    requires ChainFits(steps) && 0 < layer < |steps| && Shaped(ColumnsAt(steps, layer - 1), rows)
    ensures Shaped(ColumnsAt(steps, layer), next)
    ensures RestRows(env, steps, layer, rows) == RestRows(env, steps, layer + 1, next)
  {
    assert FitsAt(steps, layer);
    StepKeepsShape(env, steps[layer], ColumnsAt(steps, layer - 1), rows);
    StepRows(env, steps[layer], ColumnsAt(steps, layer - 1).idPos, rows)
  }

  lemma FirstAndRest(c: Columns, rows: seq<Row>)
    requires Shaped(c, rows) && rows != []
    ensures Shaped(c, [rows[0]]) && Shaped(c, rows[1..]) && rows == [rows[0]] + rows[1..]
  {
  }

  /** What the first record that leads to a row leads to: at the bottom all rows, above it what is found below one record. */
  ghost function FirstDown(env: Env, steps: seq<StepOperation>, layer: nat, rows: seq<Row>): seq<Row>
    requires ChainFits(steps) && 0 < layer <= |steps| && Shaped(ColumnsAt(steps, layer - 1), rows)
    decreases |steps| - layer, |rows|
  {
    if layer == |steps| || rows == [] then rows else
      FirstAndRest(ColumnsAt(steps, layer - 1), rows);
      var found := FirstDown(env, steps, layer + 1, LayerRows(env, steps, layer, [rows[0]]));
      if found != [] then found else FirstDown(env, steps, layer, rows[1..])
  }

  /** The same where a record counts as soon as it leads to the next layer, which is how the first table is searched. */
  ghost function FirstBlock(env: Env, steps: seq<StepOperation>, layer: nat, rows: seq<Row>): seq<Row>
    requires ChainFits(steps) && 0 < layer < |steps| && Shaped(ColumnsAt(steps, layer - 1), rows)
    decreases |rows|
  {
    if rows == [] then [] else
      FirstAndRest(ColumnsAt(steps, layer - 1), rows);
      var next := LayerRows(env, steps, layer, [rows[0]]);
      if next != [] then FirstDown(env, steps, layer + 1, next) else FirstBlock(env, steps, layer, rows[1..])
  }

  lemma FirstLeads(env: Env, steps: seq<StepOperation>, layer: nat, rows: seq<Row>)
    requires ChainFits(steps) && 0 < layer <= |steps| && Shaped(ColumnsAt(steps, layer - 1), rows) && rows != []
    ensures Shaped(ColumnsAt(steps, layer - 1), [rows[0]]) && Shaped(ColumnsAt(steps, layer - 1), rows[1..])
    ensures RestRows(env, steps, layer, rows) == RestRows(env, steps, layer, [rows[0]]) + RestRows(env, steps, layer, rows[1..])
  {
    FirstAndRest(ColumnsAt(steps, layer - 1), rows);
    RestRowsAppend(env, steps, layer, [rows[0]], rows[1..]);
  }

  /** The beginning of all there is, and something if there is something. */
  ghost predicate Begins(found: seq<Row>, full: seq<Row>) {
    found <= full && (found == [] ==> full == [])
  }

  lemma BeginsWithFirst(found: seq<Row>, part: seq<Row>, other: seq<Row>, rest: seq<Row>, full: seq<Row>)
    requires Begins(found, part) && Begins(other, rest) && full == part + rest
    ensures Begins(if found != [] then found else other, full)
  {
  }

  /** Below the bottom the search looks at the first record, and at the others if it leads nowhere. */
  lemma FirstDownUnfolds(env: Env, steps: seq<StepOperation>, layer: nat, rows: seq<Row>)
    returns (next: seq<Row>, found: seq<Row>, other: seq<Row>, part: seq<Row>, rest: seq<Row>)
    requires ChainFits(steps) && 0 < layer < |steps| && Shaped(ColumnsAt(steps, layer - 1), rows) && rows != []
    ensures Shaped(ColumnsAt(steps, layer), next) && Shaped(ColumnsAt(steps, layer - 1), rows[1..])
    ensures found == FirstDown(env, steps, layer + 1, next) && part == RestRows(env, steps, layer + 1, next)
    ensures other == FirstDown(env, steps, layer, rows[1..]) && rest == RestRows(env, steps, layer, rows[1..])
    ensures FirstDown(env, steps, layer, rows) == (if found != [] then found else other)
    ensures RestRows(env, steps, layer, rows) == part + rest
  {
    FirstLeads(env, steps, layer, rows);
    next := LayerRows(env, steps, layer, [rows[0]]);
    found, part := FirstDown(env, steps, layer + 1, next), RestRows(env, steps, layer + 1, next);
    other, rest := FirstDown(env, steps, layer, rows[1..]), RestRows(env, steps, layer, rows[1..]);
  }

  lemma NothingBegins(env: Env, steps: seq<StepOperation>, layer: nat, rows: seq<Row>)
    requires ChainFits(steps) && 0 < layer <= |steps| && Shaped(ColumnsAt(steps, layer - 1), rows) && (rows == [] || layer == |steps|)
    ensures Begins(FirstDown(env, steps, layer, rows), RestRows(env, steps, layer, rows))
  {
    if rows == [] {
      RestRowsEmpty(env, steps, layer);
    }
  }

  lemma {:induction false} FirstDownBegins(env: Env, steps: seq<StepOperation>, layer: nat, rows: seq<Row>)
    requires ChainFits(steps) && 0 < layer <= |steps| && Shaped(ColumnsAt(steps, layer - 1), rows)
    ensures Begins(FirstDown(env, steps, layer, rows), RestRows(env, steps, layer, rows))
    decreases |steps| - layer, |rows|
  {
    if rows == [] || layer == |steps| {
      NothingBegins(env, steps, layer, rows);
    } else {
      var next, found, other, part, rest := FirstDownUnfolds(env, steps, layer, rows);
      FirstDownBegins(env, steps, layer + 1, next);
      FirstDownBegins(env, steps, layer, rows[1..]);
      BeginsWithFirst(found, part, other, rest, RestRows(env, steps, layer, rows));
    }
  }

  /** What is found is the beginning of all there is, and something if there is something. */
  lemma FirstDownPrefix(env: Env, steps: seq<StepOperation>, layer: nat, rows: seq<Row>)
    requires ChainFits(steps) && 0 < layer <= |steps| && Shaped(ColumnsAt(steps, layer - 1), rows)
    ensures FirstDown(env, steps, layer, rows) <= RestRows(env, steps, layer, rows)
    ensures FirstDown(env, steps, layer, rows) == [] ==> RestRows(env, steps, layer, rows) == []
  {
    FirstDownBegins(env, steps, layer, rows);
  }

  lemma PrefixOfFirst(found: seq<Row>, part: seq<Row>, rest: seq<Row>, full: seq<Row>)
    requires full == part + rest && (found <= part || (part == [] && found <= rest))
    ensures found <= full
  {
  }

  /** With a limit of zero the rows returned are still the first rows of the chain. */
  lemma {:induction false} FirstBlockPrefix(env: Env, steps: seq<StepOperation>, layer: nat, rows: seq<Row>)
    requires ChainFits(steps) && 0 < layer < |steps| && Shaped(ColumnsAt(steps, layer - 1), rows)
    ensures FirstBlock(env, steps, layer, rows) <= RestRows(env, steps, layer, rows)
    decreases |rows|
  {
    if rows != [] {
      FirstLeads(env, steps, layer, rows);
      var next := LayerRows(env, steps, layer, [rows[0]]);
      if next != [] {
        FirstDownPrefix(env, steps, layer + 1, next);
      } else {
        RestRowsEmpty(env, steps, layer + 1);
        FirstBlockPrefix(env, steps, layer, rows[1..]);
      }
      PrefixOfFirst(FirstBlock(env, steps, layer, rows), RestRows(env, steps, layer + 1, next), RestRows(env, steps, layer, rows[1..]),
                    RestRows(env, steps, layer, rows));
    }
  }

  /** What the search with a limit makes of the first table; a chain of one step ignores the limit. */
  ghost predicate LimitedTo(env: Env, steps: seq<StepOperation>, limit: int, rows: seq<Row>)
    requires ChainFits(steps)
  {
    InitialShape(env, steps[0]);
    if |steps| == 1 then rows == ChainRows(env, steps)
    else if limit > 0 then rows == FirstOf(ChainRows(env, steps), limit)
    else if limit == 0 then rows == FirstBlock(env, steps, 1, InitialRows(env, steps[0]))
    else rows == []
  }
}
