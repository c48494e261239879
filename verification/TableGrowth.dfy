/**
 Growing a table by one column while walking over it. The first id of a row is written into the row
 itself, further ids become new rows at the end, rows without an id are erased, and a border keeps the
 walk away from the new rows.
 */
module TableGrowth {
  import opened TableOperator

  type Choice = Row -> seq<nat>

  ghost function RowPlus(row: Row, ids: seq<nat>): seq<Row> {
    seq(|ids|, i requires 0 <= i < |ids| => row + [ids[i]])
  }

  /** The old rows that stay, each with its first id. */
  ghost function Kept(valid: Choice, rows: seq<Row>): seq<Row> {
    if rows == [] then [] else
      Kept(valid, rows[..|rows| - 1]) + KeptOf(valid(rows[|rows| - 1]), rows[|rows| - 1])
  }

  ghost function KeptOf(ids: seq<nat>, row: Row): seq<Row> {
    if ids == [] then [] else [row + [ids[0]]]
  }

  /** The new rows, in the order in which they are appended. */
  ghost function Appended(valid: Choice, rows: seq<Row>): seq<Row> {
    if rows == [] then [] else
      Appended(valid, rows[..|rows| - 1]) + AppendedOf(valid(rows[|rows| - 1]), rows[|rows| - 1])
  }

  ghost function AppendedOf(ids: seq<nat>, row: Row): seq<Row> {
    if ids == [] then [] else RowPlus(row, ids[1..])
  }

  /** All pairs of an old row and one of its ids, row by row. */
  ghost function AllGrown(valid: Choice, rows: seq<Row>): seq<Row> {
    if rows == [] then [] else AllGrown(valid, rows[..|rows| - 1]) + RowPlus(rows[|rows| - 1], valid(rows[|rows| - 1]))
  }

  lemma RowSplits(row: Row, ids: seq<nat>)
    ensures RowPlus(row, ids) == KeptOf(ids, row) + AppendedOf(ids, row)
  {
  }

  /** The table after a round is, as a bag, exactly the old rows combined with their ids. */
  lemma {:induction false} GrownAsBag(valid: Choice, rows: seq<Row>)
    ensures multiset(Kept(valid, rows) + Appended(valid, rows)) == multiset(AllGrown(valid, rows))
  {
    if rows != [] {
      var init, row := rows[..|rows| - 1], rows[|rows| - 1];
      GrownAsBag(valid, init);
      RowSplits(row, valid(row));
      assert multiset(Kept(valid, rows)) == multiset(Kept(valid, init)) + multiset(KeptOf(valid(row), row));
      assert multiset(Appended(valid, rows)) == multiset(Appended(valid, init)) + multiset(AppendedOf(valid(row), row));
    }
  }

  /** Where the walk ends: at the end of the list, wherever that is, or at a given row. */
  datatype Border = End | At(index: nat)

  function BorderAfter(border: Border, ids: seq<nat>, size: nat): Border {
    match border
    case End => if |ids| > 1 then At(size) else End
    case At(k) => if ids == [] && k > 0 then At(k - 1) else At(k)
  }

  /** The state of a walk that has dealt with the first rows of its input. */
  ghost predicate Walking(table: seq<Row>, border: Border, it: nat, valid: Choice, input: seq<Row>, done: nat)
    requires done <= |input|
  {
    && table == Kept(valid, input[..done]) + input[done..] + Appended(valid, input[..done])
    && it == |Kept(valid, input[..done])|
    && border == (if Appended(valid, input[..done]) == [] then End else At(it + |input| - done))
  }

  /** The walk stands at the border exactly when every row of the input has been dealt with. */
  lemma WalkEnds(table: seq<Row>, border: Border, it: nat, valid: Choice, input: seq<Row>, done: nat)
    requires done <= |input| && Walking(table, border, it, valid, input, done)
    ensures (match border case End => it == |table| case At(k) => it == k) <==> done == |input|
    ensures done < |input| ==> it < |table| && table[it] == input[done]
  {
  }

  lemma WalkStep(table: seq<Row>, border: Border, it: nat, valid: Choice, input: seq<Row>, done: nat, next: nat, after: seq<Row>)
    requires done < |input| && Walking(table, border, it, valid, input, done) && it < |table|
    requires var row := input[done];
             && after == table[..it] + KeptOf(valid(row), row) + table[it + 1..] + AppendedOf(valid(row), row)
             && next == it + |KeptOf(valid(row), row)|
    ensures Walking(after, BorderAfter(border, valid(input[done]), |table|), next, valid, input, done + 1)
  {
    var row := input[done];
    var kept, appended := Kept(valid, input[..done]), Appended(valid, input[..done]);
    var k, a := KeptOf(valid(row), row), AppendedOf(valid(row), row);
    OneMoreRow(valid, input, done);
    WalkParts(kept, input, done, appended, k, a, table, after);
    assert |table| == |kept| + (|input| - done) + |appended|;
    assert a == [] <==> |valid(row)| <= 1;
  }

  lemma OneMoreRow(valid: Choice, input: seq<Row>, done: nat)
    requires done < |input|
    ensures Kept(valid, input[..done + 1]) == Kept(valid, input[..done]) + KeptOf(valid(input[done]), input[done])
    ensures Appended(valid, input[..done + 1]) == Appended(valid, input[..done]) + AppendedOf(valid(input[done]), input[done])
  {
    assert input[..done + 1][..done] == input[..done];
  }

  lemma WalkParts(kept: seq<Row>, input: seq<Row>, done: nat, appended: seq<Row>, k: seq<Row>, a: seq<Row>, table: seq<Row>, after: seq<Row>)
    requires done < |input| && table == kept + input[done..] + appended
    requires after == table[..|kept|] + k + table[|kept| + 1..] + a
    ensures after == (kept + k) + input[done + 1..] + (appended + a)
  {
    assert table[..|kept|] == kept && table[|kept| + 1..] == input[done + 1..] + appended;
  }
}
