/**
 JoinTable itself: index the bigger table by the padded key, look up every record of the smaller
 one, and put the columns together.
 */
module HashJoin {
  import opened Rdf
  import opened TableOperator
  import opened TableJoin

  type HashIndex = map<seq<nat>, seq<Row>>

  /** The rows with a given key, in order. */
  ghost function WithKey(rows: seq<Row>, positions: seq<nat>, key: seq<nat>): (r: seq<Row>)
    requires forall row :: row in rows ==> InRange(positions, |row|)
    ensures forall row :: row in r ==> row in rows
  {
    if rows == [] then [] else
      assert rows[0] in rows && InRange(positions, |rows[0]|);
      var rest := WithKey(rows[1..], positions, key);
      if PaddedKey(rows[0], positions) == key then [rows[0]] + rest else rest
  }

  lemma {:induction false} WithKeySnoc(rows: seq<Row>, positions: seq<nat>, key: seq<nat>, row: Row)
    requires forall row' :: row' in rows ==> InRange(positions, |row'|)
    requires InRange(positions, |row|)
    ensures forall row' :: row' in rows + [row] ==> InRange(positions, |row'|)
    ensures WithKey(rows + [row], positions, key) == WithKey(rows, positions, key) + (if PaddedKey(row, positions) == key then [row] else [])
  {
    if rows == [] {
      assert rows + [row] == [row];
    } else {
      assert (rows + [row])[1..] == rows[1..] + [row];
      WithKeySnoc(rows[1..], positions, key, row);
    }
  }

  ghost predicate Indexes(index: HashIndex, rows: seq<Row>, positions: seq<nat>)
    requires forall row :: row in rows ==> InRange(positions, |row|)
  {
    forall key :: (if key in index then index[key] else []) == WithKey(rows, positions, key)
  }

  function Unwalked(rows: seq<Row>, done: nat, remainOld: bool): seq<Row>
    requires done <= |rows|
  {
    if remainOld then rows else rows[done..]
  }

  lemma UnwalkedNext(rows: seq<Row>, done: nat, remainOld: bool)
    requires done < |rows|
    ensures var left, it := Unwalked(rows, done, remainOld), if remainOld then done else 0;
            && it < |left| && left[it] == rows[done]
            && (!remainOld ==> left[..it] + left[it + 1..] == Unwalked(rows, done + 1, remainOld))
  {
  }

  function Inserted(index: HashIndex, key: seq<nat>, record: Row): HashIndex {
    index[key := (if key in index then index[key] else []) + [record]]
  }

  lemma IndexGrows(index: HashIndex, rows: seq<Row>, positions: seq<nat>, record: Row)
    requires forall row :: row in rows ==> InRange(positions, |row|)
    requires InRange(positions, |record|) && Indexes(index, rows, positions)
    ensures forall row :: row in rows + [record] ==> InRange(positions, |row|)
    ensures Indexes(Inserted(index, PaddedKey(record, positions), record), rows + [record], positions)
  {
    var index' := Inserted(index, PaddedKey(record, positions), record);
    assert forall row :: row in rows + [record] ==> InRange(positions, |row|);
    forall k ensures (if k in index' then index'[k] else []) == WithKey(rows + [record], positions, k) {
      assert (if k in index then index[k] else []) == WithKey(rows, positions, k);
      WithKeySnoc(rows, positions, k, record);
    }
  }

  lemma IndexNext(index: HashIndex, rows: seq<Row>, positions: seq<nat>, done: nat)
    requires done < |rows| && forall row :: row in rows ==> InRange(positions, |row|)
    requires Indexes(index, rows[..done], positions)
    ensures InRange(positions, |rows[done]|)
    ensures Indexes(Inserted(index, PaddedKey(rows[done], positions), rows[done]), rows[..done + 1], positions)
  {
    assert rows[done] in rows && rows[..done + 1] == rows[..done] + [rows[done]];
    IndexGrows(index, rows[..done], positions, rows[done]);
  }

  /** One lookup or one new entry per record of the bigger table. */
  method InsertRecord(index: HashIndex, key: seq<nat>, record: Row) returns (index': HashIndex)
    ensures index' == Inserted(index, key, record)
  {
    if key in index {
      index' := index[key := index[key] + [record]];
    } else {
      index' := index[key := [record]];
      assert [record] == [] + [record];
    }
  }

  method BuildIndex(rows: seq<Row>, positions: seq<nat>, remainOld: bool) returns (index: HashIndex, left: seq<Row>)
    requires forall row :: row in rows ==> InRange(positions, |row|)
    ensures Indexes(index, rows, positions)
    ensures left == if remainOld then rows else []
  {
    index, left := map[], rows;
    var it := 0;
    ghost var done: nat := 0;
    while it < |left|
      invariant done <= |rows| && it == (if remainOld then done else 0)
      invariant left == Unwalked(rows, done, remainOld)
      invariant Indexes(index, rows[..done], positions)
      decreases |rows| - done
    {
      var record := left[it];
      IndexNext(index, rows, positions, done);
      index := InsertRecord(index, PaddedKey(record, positions), record);
      if !remainOld {
        left := left[..it] + left[it + 1..];
      } else {
        it := it + 1;
      }
      done := done + 1;
    }
    assert rows[..done] == rows;
  }

  /** Looking a record up in the index finds the rows it joins with. */
  lemma {:induction false} LookupJoins(big: seq<Row>, bigPositions: seq<nat>, record: Row, smallPositions: seq<nat>, rest: seq<nat>)
    requires forall row :: row in big ==> InRange(bigPositions, |row|)
    requires InRange(smallPositions, |record|) && InRange(rest, |record|) && |bigPositions| == |smallPositions|
    ensures JoinedWith(big, bigPositions, record, smallPositions, rest)
         == Appended(WithKey(big, bigPositions, PaddedKey(record, smallPositions)), Values(record, rest))
  {
    if big != [] {
      var key := PaddedKey(record, smallPositions);
      assert big[0] in big && InRange(bigPositions, |big[0]|);
      PaddedKeyInjective(big[0], bigPositions, record, smallPositions);
      LookupJoins(big[1..], bigPositions, record, smallPositions, rest);
      var found := WithKey(big[1..], bigPositions, key);
      AppendedCons(big[0], found, Values(record, rest));
    }
  }

  ghost function Appended(rows: seq<Row>, values: seq<nat>): seq<Row> {
    seq(|rows|, i requires 0 <= i < |rows| => rows[i] + values)
  }

  lemma AppendedCons(row: Row, rows: seq<Row>, values: seq<nat>)
    ensures Appended([row] + rows, values) == [row + values] + Appended(rows, values)
  {
  }

  method WriteMatches(found: seq<Row>, inserted: seq<nat>, before: seq<Row>) returns (rows: seq<Row>)
    ensures rows == before + Appended(found, inserted)
  {
    rows := before;
    var i := 0;
    while i < |found|
      invariant 0 <= i <= |found|
      invariant rows == before + Appended(found[..i], inserted)
    {
      rows := rows + [found[i] + inserted];
      assert rows == before + Appended(found[..i + 1], inserted);
      i := i + 1;
    }
    assert found[..i] == found;
  }

  lemma {:induction false} JoinedRowsSnoc(big: seq<Row>, bigPositions: seq<nat>, small: seq<Row>, record: Row, smallPositions: seq<nat>, rest: seq<nat>)
    requires forall row :: row in big ==> InRange(bigPositions, |row|)
    requires forall row :: row in small ==> InRange(smallPositions, |row|) && InRange(rest, |row|)
    requires InRange(smallPositions, |record|) && InRange(rest, |record|)
    ensures forall row :: row in small + [record] ==> InRange(smallPositions, |row|) && InRange(rest, |row|)
    ensures JoinedRows(big, bigPositions, small + [record], smallPositions, rest)
         == JoinedRows(big, bigPositions, small, smallPositions, rest) + JoinedWith(big, bigPositions, record, smallPositions, rest)
  {
    if small == [] {
      assert small + [record] == [record];
    } else {
      assert (small + [record])[1..] == small[1..] + [record];
      assert small[0] in small;
      JoinedRowsSnoc(big, bigPositions, small[1..], record, smallPositions, rest);
    }
  }

  lemma JoinedRowsNext(big: seq<Row>, bigPositions: seq<nat>, small: seq<Row>, done: nat, smallPositions: seq<nat>, rest: seq<nat>)
    requires forall row :: row in big ==> InRange(bigPositions, |row|)
    requires done < |small| && forall row :: row in small ==> InRange(smallPositions, |row|) && InRange(rest, |row|)
    ensures InRange(smallPositions, |small[done]|) && InRange(rest, |small[done]|)
    ensures JoinedRows(big, bigPositions, small[..done + 1], smallPositions, rest)
         == JoinedRows(big, bigPositions, small[..done], smallPositions, rest)
            + JoinedWith(big, bigPositions, small[done], smallPositions, rest)
  {
    assert small[done] in small && small[..done + 1] == small[..done] + [small[done]];
    JoinedRowsSnoc(big, bigPositions, small[..done], small[done], smallPositions, rest);
  }

  /** The rows of one record: those found under its key, each with the record's other values appended. */
  method MatchRecord(index: HashIndex, ghost big: seq<Row>, ghost bigPositions: seq<nat>,
                     record: Row, smallPositions: seq<nat>, rest: seq<nat>, before: seq<Row>)
    returns (rows: seq<Row>)
    requires forall row :: row in big ==> InRange(bigPositions, |row|)
    requires InRange(smallPositions, |record|) && InRange(rest, |record|)
    requires |bigPositions| == |smallPositions| && Indexes(index, big, bigPositions)
    ensures rows == before + JoinedWith(big, bigPositions, record, smallPositions, rest)
  {
    LookupJoins(big, bigPositions, record, smallPositions, rest);
    var key := PaddedKey(record, smallPositions);
    assert (if key in index then index[key] else []) == WithKey(big, bigPositions, key);
    rows := before;
    if key in index {
      rows := WriteMatches(index[key], Values(record, rest), before);
    }
  }

  /** The record the walk is at. */
  method MatchNext(index: HashIndex, ghost big: seq<Row>, ghost bigPositions: seq<nat>, record: Row, smallPositions: seq<nat>, rest: seq<nat>,
                   before: seq<Row>, ghost small: seq<Row>, ghost done: nat)
    returns (rows: seq<Row>)
    requires forall row :: row in big ==> InRange(bigPositions, |row|)
    requires forall row :: row in small ==> InRange(smallPositions, |row|) && InRange(rest, |row|)
    requires |bigPositions| == |smallPositions| && Indexes(index, big, bigPositions)
    requires done < |small| && record == small[done] && before == JoinedRows(big, bigPositions, small[..done], smallPositions, rest)
    ensures rows == JoinedRows(big, bigPositions, small[..done + 1], smallPositions, rest)
  {
    JoinedRowsNext(big, bigPositions, small, done, smallPositions, rest);
    rows := MatchRecord(index, big, bigPositions, record, smallPositions, rest, before);
  }

  method MatchRecords(index: HashIndex, ghost big: seq<Row>, ghost bigPositions: seq<nat>,
                      small: seq<Row>, smallPositions: seq<nat>, rest: seq<nat>, remainOld: bool)
    returns (rows: seq<Row>, left: seq<Row>)
    requires forall row :: row in big ==> InRange(bigPositions, |row|)
    requires forall row :: row in small ==> InRange(smallPositions, |row|) && InRange(rest, |row|)
    requires |bigPositions| == |smallPositions| && Indexes(index, big, bigPositions)
    ensures rows == JoinedRows(big, bigPositions, small, smallPositions, rest)
    ensures left == if remainOld then small else []
  {
    rows, left := [], small;
    var it := 0;
    ghost var done: nat := 0;
    while it < |left|
      invariant done <= |small| && it == (if remainOld then done else 0)
      invariant left == Unwalked(small, done, remainOld)
      invariant rows == JoinedRows(big, bigPositions, small[..done], smallPositions, rest)
      decreases |small| - done
    {
      UnwalkedNext(small, done, remainOld);
      rows := MatchNext(index, big, bigPositions, left[it], smallPositions, rest, rows, small, done);
      if !remainOld {
        left := left[..it] + left[it + 1..];
      } else {
        it := it + 1;
      }
      done := done + 1;
    }
    assert small[..done] == small;
  }

  lemma OneMoreColumn(bigPosId: PositionValue, wBig: nat, smallPosId: PositionValue, rest: seq<nat>, posId: PositionValue, i: nat)
    requires forall k :: 0 <= k < wBig ==> k in bigPosId
    requires forall p :: p in rest ==> p in smallPosId
    requires i in smallPosId && JoinedColumns(bigPosId, wBig, smallPosId, rest, posId)
    ensures JoinedColumns(bigPosId, wBig, smallPosId, rest + [i], posId[wBig + |rest| := smallPosId[i]])
  {
    var longer, posId' := rest + [i], posId[wBig + |rest| := smallPosId[i]];
    forall j | 0 <= j < |longer| ensures longer[j] in longer && posId'[wBig + j] == smallPosId[longer[j]] {
      if j < |rest| {
        assert rest[j] in rest && posId[wBig + j] == smallPosId[rest[j]];
      }
    }
  }

  lemma RestPositionsNext(posId: PositionValue, variables: seq<nat>, i: nat)
    requires forall k :: 0 <= k <= i ==> k in posId
    ensures RestPositions(posId, variables, i + 1)
         == RestPositions(posId, variables, i) + (if posId[i] in variables then [] else [i])
  {
  }

  method CopyColumns(posId: PositionValue, width: nat) returns (copy: PositionValue)
    requires forall i :: i in posId <==> 0 <= i < width
    ensures forall i :: i in copy <==> 0 <= i < width
    ensures forall i :: 0 <= i < width ==> copy[i] == posId[i]
  {
    copy := map[];
    var i := 0;
    while i < width
      invariant 0 <= i <= width
      invariant forall k :: k in copy <==> 0 <= k < i
      invariant forall k :: 0 <= k < i ==> copy[k] == posId[k]
    {
      copy := copy[i := posId[i]];
      i := i + 1;
    }
  }

  /** The columns of the result, big table first, and the positions of the small table that are copied over. */
  method ResultColumns(bigPosId: PositionValue, wBig: nat, smallPosId: PositionValue, wSmall: nat, variables: seq<nat>)
    returns (posId: PositionValue, rest: seq<nat>)
    requires forall i :: i in bigPosId <==> 0 <= i < wBig
    requires forall i :: i in smallPosId <==> 0 <= i < wSmall
    ensures rest == RestPositions(smallPosId, variables, wSmall)
    ensures JoinedColumns(bigPosId, wBig, smallPosId, rest, posId)
  {
    posId := CopyColumns(bigPosId, wBig);
    rest := [];
    var i := 0;
    while i < wSmall
      invariant 0 <= i <= wSmall
      invariant rest == RestPositions(smallPosId, variables, i)
      invariant JoinedColumns(bigPosId, wBig, smallPosId, rest, posId)
    {
      RestPositionsNext(smallPosId, variables, i);
      if smallPosId[i] in variables {
      } else {
        posId, rest := AddColumn(bigPosId, wBig, smallPosId, rest, posId, i);
      }
      i := i + 1;
    }
  }

  method AddColumn(bigPosId: PositionValue, wBig: nat, smallPosId: PositionValue, rest: seq<nat>, posId: PositionValue, i: nat)
    returns (morePosId: PositionValue, longer: seq<nat>)
    requires forall k :: 0 <= k < wBig ==> k in bigPosId
    requires forall p :: p in rest ==> p in smallPosId
    requires i in smallPosId && JoinedColumns(bigPosId, wBig, smallPosId, rest, posId)
    ensures longer == rest + [i]
    ensures JoinedColumns(bigPosId, wBig, smallPosId, longer, morePosId)
  {
    DomainSize(posId, wBig + |rest|);
    OneMoreColumn(bigPosId, wBig, smallPosId, rest, posId, i);
    morePosId := posId[|posId| := smallPosId[i]];
    longer := rest + [i];
  }

  /** The columns copied from the small table hold no variable of the big one. */
  lemma RestNotBig(bigIdPos: PositionValue, bigPosId: PositionValue, wBig: nat,
                   smallIdPos: PositionValue, smallPosId: PositionValue, wSmall: nat,
                   variables: seq<nat>, posId: PositionValue)
    requires MutuallyInverse(bigIdPos, bigPosId, wBig) && MutuallyInverse(smallIdPos, smallPosId, wSmall)
    requires forall v :: v in variables <==> v in bigIdPos && v in smallIdPos
    requires JoinedColumns(bigPosId, wBig, smallPosId, RestPositions(smallPosId, variables, wSmall), posId)
    ensures forall i, j: nat :: 0 <= i < wBig <= j && j in posId ==> posId[i] != posId[j]
  {
    var rest: seq<nat> := RestPositions(smallPosId, variables, wSmall);
    forall i, j: nat | 0 <= i < wBig <= j && j in posId ensures posId[i] != posId[j] {
      var k: nat := j - wBig;
      assert rest[k] in rest && posId[wBig + k] == smallPosId[rest[k]];
      RestPositionNotBig(bigIdPos, bigPosId, wBig, smallIdPos, smallPosId, wSmall, variables, i, rest[k]);
    }
  }

  lemma RestPositionNotBig(bigIdPos: PositionValue, bigPosId: PositionValue, wBig: nat,
                           smallIdPos: PositionValue, smallPosId: PositionValue, wSmall: nat,
                           variables: seq<nat>, i: nat, p: nat)
    requires MutuallyInverse(bigIdPos, bigPosId, wBig) && MutuallyInverse(smallIdPos, smallPosId, wSmall)
    requires forall v :: v in variables <==> v in bigIdPos && v in smallIdPos
    requires i < wBig && p < wSmall && smallPosId[p] !in variables
    ensures bigPosId[i] != smallPosId[p]
  {
    assert bigPosId[i] in bigIdPos && smallPosId[p] in smallIdPos;
  }

  lemma JoinedColumnsInjective(bigIdPos: PositionValue, bigPosId: PositionValue, wBig: nat,
                               smallIdPos: PositionValue, smallPosId: PositionValue, wSmall: nat,
                               variables: seq<nat>, posId: PositionValue, i: nat, j: nat)
    requires MutuallyInverse(bigIdPos, bigPosId, wBig) && MutuallyInverse(smallIdPos, smallPosId, wSmall)
    requires forall v :: v in variables <==> v in bigIdPos && v in smallIdPos
    requires JoinedColumns(bigPosId, wBig, smallPosId, RestPositions(smallPosId, variables, wSmall), posId)
    requires i in posId && j in posId && posId[i] == posId[j]
    ensures i == j
  {
    var rest: seq<nat> := RestPositions(smallPosId, variables, wSmall);
    if i < wBig && j < wBig {
      assert bigIdPos[bigPosId[i]] == i && bigIdPos[bigPosId[j]] == j;
    } else if i >= wBig && j >= wBig {
      var a: nat, b: nat := i - wBig, j - wBig;
      assert rest[a] in rest && rest[b] in rest;
      assert posId[wBig + a] == smallPosId[rest[a]] && posId[wBig + b] == smallPosId[rest[b]];
      assert smallIdPos[smallPosId[rest[a]]] == rest[a] && smallIdPos[smallPosId[rest[b]]] == rest[b];
      assert StrictlyIncreasing(rest);
    } else {
      RestNotBig(bigIdPos, bigPosId, wBig, smallIdPos, smallPosId, wSmall, variables, posId);
    }
  }

  ghost predicate Injective(posId: PositionValue) {
    forall i, j :: i in posId && j in posId && posId[i] == posId[j] ==> i == j
  }

  /** The position of each id, read off the ids at each position. */
  method Inverse(posId: PositionValue, width: nat) returns (idPos: PositionValue)
    requires forall i :: i in posId <==> 0 <= i < width
    requires Injective(posId)
    ensures MutuallyInverse(idPos, posId, width)
  {
    idPos := map[];
    var todo := posId.Keys;
    while todo != {}
      invariant todo <= posId.Keys
      invariant forall i :: i in posId && i !in todo ==> posId[i] in idPos && idPos[posId[i]] == i
      invariant forall v :: v in idPos ==> idPos[v] in posId && posId[idPos[v]] == v
      decreases todo
    {
      var i :| i in todo;
      idPos := idPos[posId[i] := i];
      todo := todo - {i};
    }
  }

  /** Every column of a table has its place in the result. */
  ghost predicate Embeds(tablePosId: PositionValue, idPos: PositionValue, width: nat) {
    forall i: nat :: i < |tablePosId| ==> i in tablePosId && tablePosId[i] in idPos && idPos[tablePosId[i]] < width
  }

  /** A row occurs as often as its projections do, multiplied. */
  ghost predicate CountsMultiply(aRows: seq<Row>, aPosId: PositionValue, bRows: seq<Row>, bPosId: PositionValue,
                                 rows: seq<Row>, idPos: PositionValue, r: Row)
    requires Embeds(aPosId, idPos, |r|) && Embeds(bPosId, idPos, |r|)
  {
    multiset(rows)[r] == multiset(aRows)[Projection(idPos, r, aPosId, |aPosId|)] * multiset(bRows)[Projection(idPos, r, bPosId, |bPosId|)]
  }

  /** The rows are the natural join of two bags of rows. */
  ghost predicate IsBagJoin(aRows: seq<Row>, aPosId: PositionValue, bRows: seq<Row>, bPosId: PositionValue,
                            rows: seq<Row>, idPos: PositionValue, width: nat)
  {
    && Embeds(aPosId, idPos, width) && Embeds(bPosId, idPos, width)
    && (forall r :: r in rows ==> |r| == width)
    && (forall r: Row :: |r| == width ==> CountsMultiply(aRows, aPosId, bRows, bPosId, rows, idPos, r))
  }

  lemma BagJoinCommutes(aRows: seq<Row>, aPosId: PositionValue, bRows: seq<Row>, bPosId: PositionValue,
                        rows: seq<Row>, idPos: PositionValue, width: nat)
    requires IsBagJoin(aRows, aPosId, bRows, bPosId, rows, idPos, width)
    ensures IsBagJoin(bRows, bPosId, aRows, aPosId, rows, idPos, width)
  {
    forall r: Row | |r| == width ensures CountsMultiply(bRows, bPosId, aRows, aPosId, rows, idPos, r) {
      assert CountsMultiply(aRows, aPosId, bRows, bPosId, rows, idPos, r);
    }
  }

  lemma {:induction false} JoinedWidth(big: seq<Row>, bigPositions: seq<nat>, wBig: nat, small: seq<Row>, smallPositions: seq<nat>, rest: seq<nat>)
    requires Rectangle(big, wBig) && InRange(bigPositions, wBig)
    requires forall row :: row in small ==> InRange(smallPositions, |row|) && InRange(rest, |row|)
    ensures forall r :: r in JoinedRows(big, bigPositions, small, smallPositions, rest) ==> |r| == wBig + |rest|
  {
    if small != [] {
      assert small[0] in small;
      JoinedWithWidth(big, bigPositions, wBig, small[0], smallPositions, rest);
      JoinedWidth(big, bigPositions, wBig, small[1..], smallPositions, rest);
    }
  }

  lemma {:induction false} JoinedWithWidth(big: seq<Row>, bigPositions: seq<nat>, wBig: nat, record: Row, smallPositions: seq<nat>, rest: seq<nat>)
    requires Rectangle(big, wBig) && InRange(bigPositions, wBig)
    requires InRange(smallPositions, |record|) && InRange(rest, |record|)
    ensures forall r :: r in JoinedWith(big, bigPositions, record, smallPositions, rest) ==> |r| == wBig + |rest|
  {
    if big != [] {
      assert big[0] in big;
      JoinedWithWidth(big[1..], bigPositions, wBig, record, smallPositions, rest);
    }
  }

  lemma JoinedShape(bigIdPos: PositionValue, bigPosId: PositionValue, smallIdPos: PositionValue, smallPosId: PositionValue,
                    variables: seq<nat>, idPos: PositionValue, posId: PositionValue)
    requires Columns(bigIdPos, bigPosId, |bigPosId|, smallIdPos, smallPosId, |smallPosId|, variables, idPos, posId)
    ensures |posId| == |bigPosId| + |RestPositions(smallPosId, variables, |smallPosId|)|
    ensures Embeds(bigPosId, idPos, |posId|) && Embeds(smallPosId, idPos, |posId|)
    ensures forall i :: 0 <= i < |smallPosId| ==> smallPosId[i] in idPos
    ensures forall i :: 0 <= i < |bigPosId| ==> bigPosId[i] in idPos && idPos[bigPosId[i]] == i
    ensures idPos.Keys == bigIdPos.Keys + smallIdPos.Keys
    ensures MutuallyInverse(idPos, posId, |posId|)
  {
    ResultCovers(bigIdPos, bigPosId, |bigPosId|, smallIdPos, smallPosId, |smallPosId|, variables, idPos, posId);
    DomainSize(posId, |bigPosId| + |RestPositions(smallPosId, variables, |smallPosId|)|);
  }

  lemma JoinedRowsAreBagJoin(bigIdPos: PositionValue, bigPosId: PositionValue, smallIdPos: PositionValue, smallPosId: PositionValue,
                             variables: seq<nat>, idPos: PositionValue, posId: PositionValue, big: seq<Row>, small: seq<Row>)
    requires Columns(bigIdPos, bigPosId, |bigPosId|, smallIdPos, smallPosId, |smallPosId|, variables, idPos, posId)
    requires Rectangle(big, |bigPosId|) && Rectangle(small, |smallPosId|)
    requires InRange(PositionsOf(variables, bigIdPos), |bigPosId|) && InRange(PositionsOf(variables, smallIdPos), |smallPosId|)
    ensures IsBagJoin(big, bigPosId, small, smallPosId,
                      JoinedRows(big, PositionsOf(variables, bigIdPos), small, PositionsOf(variables, smallIdPos),
                                 RestPositions(smallPosId, variables, |smallPosId|)), idPos, |posId|)
  {
    var rest: seq<nat> := RestPositions(smallPosId, variables, |smallPosId|);
    JoinedShape(bigIdPos, bigPosId, smallIdPos, smallPosId, variables, idPos, posId);
    JoinedWidth(big, PositionsOf(variables, bigIdPos), |bigPosId|, small, PositionsOf(variables, smallIdPos), rest);
    forall r: Row | |r| == |posId|
      ensures CountsMultiply(big, bigPosId, small, smallPosId,
                             JoinedRows(big, PositionsOf(variables, bigIdPos), small, PositionsOf(variables, smallIdPos), rest), idPos, r)
    {
      RowCounts(bigIdPos, bigPosId, smallIdPos, smallPosId, variables, idPos, posId, big, small, r);
    }
  }

  lemma RowCounts(bigIdPos: PositionValue, bigPosId: PositionValue, smallIdPos: PositionValue, smallPosId: PositionValue,
                  variables: seq<nat>, idPos: PositionValue, posId: PositionValue, big: seq<Row>, small: seq<Row>, r: Row)
    requires Columns(bigIdPos, bigPosId, |bigPosId|, smallIdPos, smallPosId, |smallPosId|, variables, idPos, posId)
    requires Rectangle(big, |bigPosId|) && Rectangle(small, |smallPosId|) && |r| == |posId|
    requires InRange(PositionsOf(variables, bigIdPos), |bigPosId|) && InRange(PositionsOf(variables, smallIdPos), |smallPosId|)
    requires Embeds(bigPosId, idPos, |r|) && Embeds(smallPosId, idPos, |r|)
    ensures CountsMultiply(big, bigPosId, small, smallPosId,
                           JoinedRows(big, PositionsOf(variables, bigIdPos), small, PositionsOf(variables, smallIdPos),
                                      RestPositions(smallPosId, variables, |smallPosId|)), idPos, r)
  {
    JoinedShape(bigIdPos, bigPosId, smallIdPos, smallPosId, variables, idPos, posId);
    CountJoinedRows(bigIdPos, bigPosId, |bigPosId|, smallIdPos, smallPosId, |smallPosId|, variables, idPos, posId, big, small, r);
    BigPart(bigPosId, |bigPosId|, idPos, r);
  }

  lemma BigPart(bigPosId: PositionValue, wBig: nat, idPos: PositionValue, r: Row)
    requires wBig <= |r|
    requires forall i :: 0 <= i < wBig ==> i in bigPosId && bigPosId[i] in idPos && idPos[bigPosId[i]] == i
    ensures r[..wBig] == Projection(idPos, r, bigPosId, wBig)
  {
  }

  ghost predicate WellFormedTable(t: IntermediateResult)
    reads t
  {
    MutuallyInverse(t.idPos, t.posId, |t.posId|) && Rectangle(t.values, |t.posId|)
  }

  lemma PositionsInRange(variables: seq<nat>, idPos: PositionValue, posId: PositionValue, width: nat)
    requires MutuallyInverse(idPos, posId, width) && forall v :: v in variables ==> v in idPos
    ensures InRange(PositionsOf(variables, idPos), width)
  {
    var positions := PositionsOf(variables, idPos);
    forall p | p in positions ensures p < width {
      var k :| 0 <= k < |positions| && positions[k] == p;
      assert variables[k] in variables;
    }
  }

  lemma JoinedColumnsDistinct(bigIdPos: PositionValue, bigPosId: PositionValue, wBig: nat,
                              smallIdPos: PositionValue, smallPosId: PositionValue, wSmall: nat,
                              variables: seq<nat>, posId: PositionValue)
    requires MutuallyInverse(bigIdPos, bigPosId, wBig) && MutuallyInverse(smallIdPos, smallPosId, wSmall)
    requires forall v :: v in variables <==> v in bigIdPos && v in smallIdPos
    requires JoinedColumns(bigPosId, wBig, smallPosId, RestPositions(smallPosId, variables, wSmall), posId)
    ensures Injective(posId)
  {
    forall i, j | i in posId && j in posId && posId[i] == posId[j] ensures i == j {
      JoinedColumnsInjective(bigIdPos, bigPosId, wBig, smallIdPos, smallPosId, wSmall, variables, posId, i, j);
    }
  }

  /** The columns of the variables of the result. */
  method InvertColumns(bigIdPos: PositionValue, bigPosId: PositionValue, wBig: nat,
                       smallIdPos: PositionValue, smallPosId: PositionValue, wSmall: nat,
                       variables: seq<nat>, posId: PositionValue, width: nat)
    returns (idPos: PositionValue)
    requires MutuallyInverse(bigIdPos, bigPosId, wBig) && MutuallyInverse(smallIdPos, smallPosId, wSmall)
    requires forall v :: v in variables <==> v in bigIdPos && v in smallIdPos
    requires JoinedColumns(bigPosId, wBig, smallPosId, RestPositions(smallPosId, variables, wSmall), posId)
    requires width == wBig + |RestPositions(smallPosId, variables, wSmall)|
    ensures MutuallyInverse(idPos, posId, width)
  {
    JoinedColumnsDistinct(bigIdPos, bigPosId, wBig, smallIdPos, smallPosId, wSmall, variables, posId);
    idPos := Inverse(posId, width);
  }

  /** The still empty result table, and the positions of the small table that are copied into it. */
  method ResultTable(bigIdPos: PositionValue, bigPosId: PositionValue, wBig: nat,
                     smallIdPos: PositionValue, smallPosId: PositionValue, wSmall: nat, variables: seq<nat>)
    returns (idPos: PositionValue, posId: PositionValue, rest: seq<nat>)
    requires MutuallyInverse(bigIdPos, bigPosId, wBig) && MutuallyInverse(smallIdPos, smallPosId, wSmall)
    requires forall v :: v in variables <==> v in bigIdPos && v in smallIdPos
    ensures rest == RestPositions(smallPosId, variables, wSmall)
    ensures Columns(bigIdPos, bigPosId, wBig, smallIdPos, smallPosId, wSmall, variables, idPos, posId)
  {
    posId, rest := ResultColumns(bigPosId, wBig, smallPosId, wSmall, variables);
    idPos := InvertColumns(bigIdPos, bigPosId, wBig, smallIdPos, smallPosId, wSmall, variables, posId, wBig + |rest|);
  }

  lemma SmallInRange(small: seq<Row>, posId: PositionValue, positions: seq<nat>, variables: seq<nat>, row: Row)
    requires Rectangle(small, |posId|) && InRange(positions, |posId|) && row in small
    requires forall i :: 0 <= i < |posId| ==> i in posId
    ensures InRange(positions, |row|) && InRange(RestPositions(posId, variables, |posId|), |row|)
  {
  }

  /** The join proper, once it is decided which table is indexed. */
  method JoinIndexed(big: IntermediateResult, small: IntermediateResult, variables: seq<nat>, remainOld: bool)
    returns (result: IntermediateResult)
    requires big != small && WellFormedTable(big) && WellFormedTable(small)
    requires forall v :: v in variables <==> v in big.idPos && v in small.idPos
    modifies big`values, small`values
    ensures fresh(result) && WellFormedTable(result)
    ensures result.idPos.Keys == big.idPos.Keys + small.idPos.Keys
    ensures IsBagJoin(old(big.values), big.posId, old(small.values), small.posId, result.values, result.idPos, |result.posId|)
    ensures big.values == (if remainOld then old(big.values) else [])
    ensures small.values == (if remainOld then old(small.values) else [])
  {
    result := new IntermediateResult();
    var rows, leftBig, leftSmall, idPos, posId := JoinContents(big.values, big.idPos, big.posId, small.values, small.idPos, small.posId,
                                                               variables, remainOld);
    result.posId, result.idPos := posId, idPos;
    big.values := leftBig;
    small.values := leftSmall;
    result.values := rows;
  }

  /** The same on the contents of the two tables. */
  method JoinContents(big: seq<Row>, bigIdPos: PositionValue, bigPosId: PositionValue,
                      small: seq<Row>, smallIdPos: PositionValue, smallPosId: PositionValue, variables: seq<nat>, remainOld: bool)
    returns (rows: seq<Row>, leftBig: seq<Row>, leftSmall: seq<Row>, idPos: PositionValue, posId: PositionValue)
    requires MutuallyInverse(bigIdPos, bigPosId, |bigPosId|) && Rectangle(big, |bigPosId|)
    requires MutuallyInverse(smallIdPos, smallPosId, |smallPosId|) && Rectangle(small, |smallPosId|)
    requires forall v :: v in variables <==> v in bigIdPos && v in smallIdPos
    ensures MutuallyInverse(idPos, posId, |posId|) && Rectangle(rows, |posId|)
    ensures idPos.Keys == bigIdPos.Keys + smallIdPos.Keys
    ensures IsBagJoin(big, bigPosId, small, smallPosId, rows, idPos, |posId|)
    ensures leftBig == (if remainOld then big else []) && leftSmall == (if remainOld then small else [])
  {
    PositionsInRange(variables, bigIdPos, bigPosId, |bigPosId|);
    PositionsInRange(variables, smallIdPos, smallPosId, |smallPosId|);
    var rest;
    idPos, posId, rest := ResultTable(bigIdPos, bigPosId, |bigPosId|, smallIdPos, smallPosId, |smallPosId|, variables);
    JoinedShape(bigIdPos, bigPosId, smallIdPos, smallPosId, variables, idPos, posId);
    JoinedRowsAreBagJoin(bigIdPos, bigPosId, smallIdPos, smallPosId, variables, idPos, posId, big, small);
    rows, leftBig, leftSmall := IndexAndMatch(big, PositionsOf(variables, bigIdPos), small, PositionsOf(variables, smallIdPos), rest,
                                              smallPosId, variables, remainOld, |bigPosId|);
  }

  method IndexAndMatch(big: seq<Row>, bigPositions: seq<nat>, small: seq<Row>, smallPositions: seq<nat>, rest: seq<nat>,
                       ghost smallPosId: PositionValue, ghost variables: seq<nat>, remainOld: bool, ghost wBig: nat)
    returns (rows: seq<Row>, leftBig: seq<Row>, leftSmall: seq<Row>)
    requires Rectangle(big, wBig) && InRange(bigPositions, wBig)
    requires Rectangle(small, |smallPosId|) && InRange(smallPositions, |smallPosId|) && |bigPositions| == |smallPositions|
    requires forall i :: 0 <= i < |smallPosId| ==> i in smallPosId
    requires rest == RestPositions(smallPosId, variables, |smallPosId|)
    ensures forall row :: row in small ==> InRange(rest, |row|)
    ensures rows == JoinedRows(big, bigPositions, small, smallPositions, rest)
    ensures leftBig == if remainOld then big else []
    ensures leftSmall == if remainOld then small else []
  {
    forall row | row in small ensures InRange(smallPositions, |row|) && InRange(rest, |row|) {
      SmallInRange(small, smallPosId, smallPositions, variables, row);
    }
    var index: HashIndex;
    index, leftBig := BuildIndex(big, bigPositions, remainOld);
    rows, leftSmall := MatchRecords(index, big, bigPositions, small, smallPositions, rest, remainOld);
  }

  /**
   Joins two tables on their common variables. If either is empty, the result has no rows and no
   columns and the call reports failure; otherwise it is the natural join of the two bags of rows,
   whichever table is the bigger one and whether or not the inputs are kept.
   */
  method JoinTwoTables(a: IntermediateResult, b: IntermediateResult, variables: seq<nat>, remainOld: bool)
    returns (ok: bool, result: IntermediateResult)
    requires a != b && WellFormedTable(a) && WellFormedTable(b)
    requires a.values != [] && b.values != [] ==> forall v :: v in variables <==> v in a.idPos && v in b.idPos
    modifies a`values, b`values
    ensures ok <==> old(a.values) != [] && old(b.values) != []
    ensures fresh(result) && WellFormedTable(result)
    ensures !ok ==> result.values == [] && result.idPos == map[] && result.posId == map[]
    ensures !ok ==> a.values == old(a.values) && b.values == old(b.values)
    ensures ok ==> result.idPos.Keys == a.idPos.Keys + b.idPos.Keys
    ensures ok ==> IsBagJoin(old(a.values), a.posId, old(b.values), b.posId, result.values, result.idPos, |result.posId|)
    ensures ok ==> a.values == (if remainOld then old(a.values) else []) && b.values == (if remainOld then old(b.values) else [])
  {
    if a.values == [] || b.values == [] {
      ok := false;
      result := new IntermediateResult();
      return;
    }
    ok := true;
    if |a.values| > |b.values| {
      result := JoinIndexed(a, b, variables, remainOld);
    } else {
      result := JoinIndexed(b, a, variables, remainOld);
      BagJoinCommutes(old(b.values), b.posId, old(a.values), a.posId, result.values, result.idPos, |result.posId|);
    }
  }
}
