/**
 The hash join of two tables. Its partner is the natural join as a bag: a row occurs in the result
 as often as its two projections occur in the inputs, multiplied (section 18.5 of SPARQL 1.1 Query
 Language, Join).
 */
module TableJoin {
  import opened Rdf
  import opened TableOperator

  function Values(row: Row, positions: seq<nat>): seq<nat>
    requires forall p :: p in positions ==> p < |row|
  {
    seq(|positions|, i requires 0 <= i < |positions| => assert positions[i] in positions; row[positions[i]])
  }

  /** The hash key: as many zeros as there are common variables, then their values. */
  function PaddedKey(row: Row, positions: seq<nat>): seq<nat>
    requires forall p :: p in positions ==> p < |row|
  {
    seq(|positions|, i => 0) + Values(row, positions)
  }

  /** The padding never makes two different value lists collide. */
  lemma PaddedKeyInjective(a: Row, aPositions: seq<nat>, b: Row, bPositions: seq<nat>)
    requires forall p :: p in aPositions ==> p < |a|
    requires forall p :: p in bPositions ==> p < |b|
    requires |aPositions| == |bPositions|
    ensures PaddedKey(a, aPositions) == PaddedKey(b, bPositions) <==> Values(a, aPositions) == Values(b, bPositions)
  {
    var n := |aPositions|;
    assert PaddedKey(a, aPositions)[n..] == Values(a, aPositions);
    assert PaddedKey(b, bPositions)[n..] == Values(b, bPositions);
  }

  ghost predicate InRange(positions: seq<nat>, width: nat) {
    forall p :: p in positions ==> p < width
  }

  ghost predicate Rectangle(rows: seq<Row>, width: nat) {
    forall row :: row in rows ==> |row| == width
  }

  /** The positions of the common variables in one of the tables. */
  function PositionsOf(variables: seq<nat>, idPos: PositionValue): seq<nat>
    requires forall v :: v in variables ==> v in idPos
  {
    seq(|variables|, i requires 0 <= i < |variables| => assert variables[i] in variables; idPos[variables[i]])
  }

  /** The first n positions of a table whose variable is not a common one. */
  function RestPositions(posId: PositionValue, variables: seq<nat>, n: nat): (r: seq<nat>)
    requires forall i :: 0 <= i < n ==> i in posId
    ensures forall i :: i in r <==> 0 <= i < n && posId[i] !in variables
    ensures StrictlyIncreasing(r)
  {
    if n == 0 then [] else
      var earlier := RestPositions(posId, variables, n - 1);
      assert forall k :: 0 <= k < |earlier| ==> earlier[k] in earlier;
      if posId[n - 1] in variables then earlier else earlier + [n - 1]
  }

  /** Columns of the result: those of the big table, then those of the small one that are not common. */
  ghost predicate JoinedColumns(bigPosId: PositionValue, wBig: nat, smallPosId: PositionValue, rest: seq<nat>, posId: PositionValue)
    requires forall i :: 0 <= i < wBig ==> i in bigPosId
    requires forall p :: p in rest ==> p in smallPosId
  {
    && (forall i :: i in posId <==> 0 <= i < wBig + |rest|)
    && (forall i :: 0 <= i < wBig ==> posId[i] == bigPosId[i])
    && (forall j :: 0 <= j < |rest| ==> rest[j] in rest && posId[wBig + j] == smallPosId[rest[j]])
  }

  /** The rows one small record makes with a list of big records. */
  function JoinedWith(big: seq<Row>, bigPositions: seq<nat>, record: Row, smallPositions: seq<nat>, rest: seq<nat>): seq<Row>
    requires forall row :: row in big ==> InRange(bigPositions, |row|)
    requires InRange(smallPositions, |record|) && InRange(rest, |record|)
  {
    if big == [] then [] else
      assert big[0] in big && InRange(bigPositions, |big[0]|);
      (if Values(big[0], bigPositions) == Values(record, smallPositions) then [big[0] + Values(record, rest)] else [])
      + JoinedWith(big[1..], bigPositions, record, smallPositions, rest)
  }

  function JoinedRows(big: seq<Row>, bigPositions: seq<nat>, small: seq<Row>, smallPositions: seq<nat>, rest: seq<nat>): seq<Row>
    requires forall row :: row in big ==> InRange(bigPositions, |row|)
    requires forall row :: row in small ==> InRange(smallPositions, |row|) && InRange(rest, |row|)
  {
    if small == [] then [] else
      assert small[0] in small;
      JoinedWith(big, bigPositions, small[0], smallPositions, rest) + JoinedRows(big, bigPositions, small[1..], smallPositions, rest)
  }

  // ---- counting rows ----

  lemma MultisetCons<T>(x: T, xs: seq<T>, y: T)
    ensures multiset([x] + xs)[y] == (if x == y then 1 else 0) + multiset(xs)[y]
  {
  }

  lemma Parts(b: Row, other: Row, r: Row)
    requires |r| == |b| + |other|
    ensures b + other == r <==> b == r[..|b|] && other == r[|b|..]
  {
    assert r == r[..|b|] + r[|b|..];
    assert (b + other)[..|b|] == b && (b + other)[|b|..] == other;
  }

  lemma {:induction false} CountJoinedWith(big: seq<Row>, wBig: nat, bigPositions: seq<nat>, record: Row, smallPositions: seq<nat>,
                                           rest: seq<nat>, r: Row)
    requires Rectangle(big, wBig) && InRange(bigPositions, wBig)
    requires InRange(smallPositions, |record|) && InRange(rest, |record|)
    requires |r| == wBig + |rest|
    ensures multiset(JoinedWith(big, bigPositions, record, smallPositions, rest))[r]
         == if Values(r[..wBig], bigPositions) == Values(record, smallPositions) && r[wBig..] == Values(record, rest)
            then multiset(big)[r[..wBig]] else 0
  {
    if big != [] {
      var b, tail := big[0], big[1..];
      assert big == [b] + tail;
      assert |b| == wBig by { assert b in big; }
      CountJoinedWith(tail, wBig, bigPositions, record, smallPositions, rest, r);
      MultisetCons(b, tail, r[..wBig]);
      var other := Values(record, rest);
      Parts(b, other, r);
      MultisetCons(b + other, JoinedWith(tail, bigPositions, record, smallPositions, rest), r);
    }
  }

  /** Both tables and their result, as far as columns are concerned. */
  ghost predicate Columns(bigIdPos: PositionValue, bigPosId: PositionValue, wBig: nat,
                          smallIdPos: PositionValue, smallPosId: PositionValue, wSmall: nat,
                          variables: seq<nat>,
                          idPos: PositionValue, posId: PositionValue)
  {
    && MutuallyInverse(bigIdPos, bigPosId, wBig)
    && MutuallyInverse(smallIdPos, smallPosId, wSmall)
    && (forall v :: v in variables <==> v in bigIdPos && v in smallIdPos)
    && JoinedColumns(bigPosId, wBig, smallPosId, RestPositions(smallPosId, variables, wSmall), posId)
    && MutuallyInverse(idPos, posId, wBig + |RestPositions(smallPosId, variables, wSmall)|)
  }

  /** The part of a result row that belongs to a table with the given columns. */
  function Projection(idPos: PositionValue, r: Row, tablePosId: PositionValue, width: nat): Row
    requires forall i :: 0 <= i < width ==> i in tablePosId && tablePosId[i] in idPos && idPos[tablePosId[i]] < |r|
  {
    seq(width, i requires 0 <= i < width => r[idPos[tablePosId[i]]])
  }

  lemma BigColumns(bigIdPos: PositionValue, bigPosId: PositionValue, wBig: nat,
                   smallIdPos: PositionValue, smallPosId: PositionValue, wSmall: nat,
                   variables: seq<nat>, idPos: PositionValue, posId: PositionValue)
    requires Columns(bigIdPos, bigPosId, wBig, smallIdPos, smallPosId, wSmall, variables, idPos, posId)
    ensures forall i :: 0 <= i < wBig ==> bigPosId[i] in idPos && idPos[bigPosId[i]] == i
  {
    forall i | 0 <= i < wBig ensures bigPosId[i] in idPos && idPos[bigPosId[i]] == i {
      assert posId[i] == bigPosId[i];
    }
  }

  lemma SmallColumns(bigIdPos: PositionValue, bigPosId: PositionValue, wBig: nat,
                     smallIdPos: PositionValue, smallPosId: PositionValue, wSmall: nat,
                     variables: seq<nat>, idPos: PositionValue, posId: PositionValue)
    requires Columns(bigIdPos, bigPosId, wBig, smallIdPos, smallPosId, wSmall, variables, idPos, posId)
    ensures forall i :: 0 <= i < wSmall ==> smallPosId[i] in idPos
  {
    var rest: seq<nat> := RestPositions(smallPosId, variables, wSmall);
    forall i | 0 <= i < wSmall ensures smallPosId[i] in idPos {
      var v := smallPosId[i];
      if v in variables {
        assert bigPosId[bigIdPos[v]] == v;
        assert posId[bigIdPos[v]] == v;
      } else {
        assert i in rest;
        var j :| 0 <= j < |rest| && rest[j] == i;
        assert posId[wBig + j] == v;
      }
    }
  }

  /** Every variable of either table has a column in the result, and the big table's columns stay where they were. */
  lemma ResultCovers(bigIdPos: PositionValue, bigPosId: PositionValue, wBig: nat,
                     smallIdPos: PositionValue, smallPosId: PositionValue, wSmall: nat,
                     variables: seq<nat>, idPos: PositionValue, posId: PositionValue)
    requires Columns(bigIdPos, bigPosId, wBig, smallIdPos, smallPosId, wSmall, variables, idPos, posId)
    ensures forall i :: 0 <= i < wBig ==> bigPosId[i] in idPos && idPos[bigPosId[i]] == i
    ensures forall i :: 0 <= i < wSmall ==> smallPosId[i] in idPos
    ensures idPos.Keys == bigIdPos.Keys + smallIdPos.Keys
  {
    BigColumns(bigIdPos, bigPosId, wBig, smallIdPos, smallPosId, wSmall, variables, idPos, posId);
    SmallColumns(bigIdPos, bigPosId, wBig, smallIdPos, smallPosId, wSmall, variables, idPos, posId);
    var rest: seq<nat> := RestPositions(smallPosId, variables, wSmall);
    forall v ensures v in idPos <==> v in bigIdPos || v in smallIdPos {
      if v in bigIdPos {
        assert bigPosId[bigIdPos[v]] == v;
      }
      if v in smallIdPos {
        assert smallPosId[smallIdPos[v]] == v;
      }
      if v in idPos {
        var i := idPos[v];
        assert posId[i] == v;
        if i < wBig {
          assert bigPosId[i] == v;
        } else {
          assert rest[i - wBig] in rest;
          assert smallPosId[rest[i - wBig]] == v;
        }
      }
    }
  }

  lemma CommonValues(bigIdPos: PositionValue, bigPosId: PositionValue, wBig: nat,
                     smallIdPos: PositionValue, smallPosId: PositionValue, wSmall: nat,
                     variables: seq<nat>, idPos: PositionValue, posId: PositionValue, r: Row, record: Row)
    requires Columns(bigIdPos, bigPosId, wBig, smallIdPos, smallPosId, wSmall, variables, idPos, posId)
    requires |r| == wBig + |RestPositions(smallPosId, variables, wSmall)| && |record| == wSmall
    ensures InRange(PositionsOf(variables, bigIdPos), wBig) && InRange(PositionsOf(variables, smallIdPos), wSmall)
    ensures Values(r[..wBig], PositionsOf(variables, bigIdPos)) == Values(record, PositionsOf(variables, smallIdPos)) <==>
              forall v :: v in variables ==> r[bigIdPos[v]] == record[smallIdPos[v]]
  {
    var bigPositions, smallPositions := PositionsOf(variables, bigIdPos), PositionsOf(variables, smallIdPos);
    assert InRange(bigPositions, wBig) by {
      forall p | p in bigPositions ensures p < wBig {
        var k :| 0 <= k < |bigPositions| && bigPositions[k] == p;
        assert variables[k] in variables;
      }
    }
    assert InRange(smallPositions, wSmall) by {
      forall p | p in smallPositions ensures p < wSmall {
        var k :| 0 <= k < |smallPositions| && smallPositions[k] == p;
        assert variables[k] in variables;
      }
    }
    var a, b := Values(r[..wBig], bigPositions), Values(record, smallPositions);
    forall k | 0 <= k < |variables| ensures a[k] == r[bigIdPos[variables[k]]] && b[k] == record[smallIdPos[variables[k]]] {
      assert variables[k] in variables && bigPositions[k] in bigPositions;
    }
    if a == b {
      forall v | v in variables ensures r[bigIdPos[v]] == record[smallIdPos[v]] {
        var k :| 0 <= k < |variables| && variables[k] == v;
        assert a[k] == b[k];
      }
    }
    if forall v :: v in variables ==> r[bigIdPos[v]] == record[smallIdPos[v]] {
      assert forall k :: 0 <= k < |variables| ==> variables[k] in variables && a[k] == b[k];
    }
  }

  /** At a common variable, the projection onto the small table shows the value of the big part. */
  lemma CommonEntry(bigIdPos: PositionValue, bigPosId: PositionValue, wBig: nat,
                    smallIdPos: PositionValue, smallPosId: PositionValue, wSmall: nat,
                    idPos: PositionValue, r: Row, v: nat)
    requires MutuallyInverse(bigIdPos, bigPosId, wBig) && MutuallyInverse(smallIdPos, smallPosId, wSmall)
    requires wBig <= |r| && v in bigIdPos && v in smallIdPos
    requires forall i :: 0 <= i < wSmall ==> smallPosId[i] in idPos && idPos[smallPosId[i]] < |r|
    requires forall i :: 0 <= i < wBig ==> bigPosId[i] in idPos && idPos[bigPosId[i]] == i
    ensures Projection(idPos, r, smallPosId, wSmall)[smallIdPos[v]] == r[bigIdPos[v]]
  {
    assert smallPosId[smallIdPos[v]] == v && bigPosId[bigIdPos[v]] == v;
  }

  /** At the other columns of the small table, the projection shows the values copied behind the big part. */
  lemma RestEntries(wBig: nat, smallPosId: PositionValue, wSmall: nat, rest: seq<nat>, idPos: PositionValue, posId: PositionValue, r: Row)
    requires |r| == wBig + |rest| && forall p :: p in rest ==> p < wSmall
    requires forall i :: 0 <= i < wSmall ==> i in smallPosId && smallPosId[i] in idPos && idPos[smallPosId[i]] < |r|
    requires MutuallyInverse(idPos, posId, wBig + |rest|)
    requires forall j :: 0 <= j < |rest| ==> rest[j] in rest && posId[wBig + j] == smallPosId[rest[j]]
    ensures Values(Projection(idPos, r, smallPosId, wSmall), rest) == r[wBig..]
  {
    var p := Projection(idPos, r, smallPosId, wSmall);
    forall j | 0 <= j < |rest| ensures Values(p, rest)[j] == r[wBig..][j] {
      var at: nat := wBig + j;
      assert rest[j] in rest;
      assert posId[at] == smallPosId[rest[j]];
      assert idPos[posId[at]] == at;
    }
  }

  /** How the projection onto the small table reads off a result row. */
  lemma ProjectionEntries(bigIdPos: PositionValue, bigPosId: PositionValue, wBig: nat,
                          smallIdPos: PositionValue, smallPosId: PositionValue, wSmall: nat,
                          variables: seq<nat>, idPos: PositionValue, posId: PositionValue, r: Row)
    requires Columns(bigIdPos, bigPosId, wBig, smallIdPos, smallPosId, wSmall, variables, idPos, posId)
    requires |r| == wBig + |RestPositions(smallPosId, variables, wSmall)|
    requires forall i :: 0 <= i < wSmall ==> smallPosId[i] in idPos
    requires forall i :: 0 <= i < wBig ==> bigPosId[i] in idPos && idPos[bigPosId[i]] == i
    ensures forall v :: v in variables ==> Projection(idPos, r, smallPosId, wSmall)[smallIdPos[v]] == r[bigIdPos[v]]
    ensures Values(Projection(idPos, r, smallPosId, wSmall), RestPositions(smallPosId, variables, wSmall)) == r[wBig..]
  {
    forall v | v in variables ensures Projection(idPos, r, smallPosId, wSmall)[smallIdPos[v]] == r[bigIdPos[v]] {
      CommonEntry(bigIdPos, bigPosId, wBig, smallIdPos, smallPosId, wSmall, idPos, r, v);
    }
    RestEntries(wBig, smallPosId, wSmall, RestPositions(smallPosId, variables, wSmall), idPos, posId, r);
  }

  /** A record of the small table is determined by its common values and the others. */
  lemma RecordDetermined(smallIdPos: PositionValue, smallPosId: PositionValue, wSmall: nat, variables: seq<nat>, a: Row, b: Row)
    requires MutuallyInverse(smallIdPos, smallPosId, wSmall) && |a| == wSmall && |b| == wSmall
    requires forall v :: v in variables ==> v in smallIdPos && a[smallIdPos[v]] == b[smallIdPos[v]]
    requires Values(a, RestPositions(smallPosId, variables, wSmall)) == Values(b, RestPositions(smallPosId, variables, wSmall))
    ensures a == b
  {
    var rest: seq<nat> := RestPositions(smallPosId, variables, wSmall);
    forall i | 0 <= i < wSmall ensures a[i] == b[i] {
      if smallPosId[i] in variables {
        assert smallIdPos[smallPosId[i]] == i;
      } else {
        assert i in rest;
        var j :| 0 <= j < |rest| && rest[j] == i;
        assert Values(a, rest)[j] == Values(b, rest)[j];
      }
    }
  }

  /** A record of the small table contributes to a result row exactly if it is the row's projection. */
  lemma ContributesIffProjection(bigIdPos: PositionValue, bigPosId: PositionValue, wBig: nat,
                                 smallIdPos: PositionValue, smallPosId: PositionValue, wSmall: nat,
                                 variables: seq<nat>, idPos: PositionValue, posId: PositionValue, r: Row, record: Row)
    requires Columns(bigIdPos, bigPosId, wBig, smallIdPos, smallPosId, wSmall, variables, idPos, posId)
    requires |r| == wBig + |RestPositions(smallPosId, variables, wSmall)| && |record| == wSmall
    requires forall i :: 0 <= i < wSmall ==> smallPosId[i] in idPos
    requires forall i :: 0 <= i < wBig ==> bigPosId[i] in idPos && idPos[bigPosId[i]] == i
    ensures InRange(PositionsOf(variables, bigIdPos), wBig) && InRange(PositionsOf(variables, smallIdPos), wSmall)
    ensures (Values(r[..wBig], PositionsOf(variables, bigIdPos)) == Values(record, PositionsOf(variables, smallIdPos))
             && r[wBig..] == Values(record, RestPositions(smallPosId, variables, wSmall)))
            <==> record == Projection(idPos, r, smallPosId, wSmall)
  {
    var p := Projection(idPos, r, smallPosId, wSmall);
    CommonValues(bigIdPos, bigPosId, wBig, smallIdPos, smallPosId, wSmall, variables, idPos, posId, r, record);
    ProjectionEntries(bigIdPos, bigPosId, wBig, smallIdPos, smallPosId, wSmall, variables, idPos, posId, r);
    if (forall v :: v in variables ==> r[bigIdPos[v]] == record[smallIdPos[v]])
       && r[wBig..] == Values(record, RestPositions(smallPosId, variables, wSmall)) {
      RecordDetermined(smallIdPos, smallPosId, wSmall, variables, record, p);
    }
  }

  /** One record of the small table adds the count of the big row it meets, if it is the row's projection. */
  lemma CountOneRecord(bigIdPos: PositionValue, bigPosId: PositionValue, wBig: nat,
                       smallIdPos: PositionValue, smallPosId: PositionValue, wSmall: nat,
                       variables: seq<nat>, idPos: PositionValue, posId: PositionValue,
                       big: seq<Row>, record: Row, r: Row)
    requires Columns(bigIdPos, bigPosId, wBig, smallIdPos, smallPosId, wSmall, variables, idPos, posId)
    requires Rectangle(big, wBig) && |record| == wSmall
    requires |r| == wBig + |RestPositions(smallPosId, variables, wSmall)|
    requires forall i :: 0 <= i < wSmall ==> smallPosId[i] in idPos
    requires forall i :: 0 <= i < wBig ==> bigPosId[i] in idPos && idPos[bigPosId[i]] == i
    requires InRange(PositionsOf(variables, bigIdPos), wBig) && InRange(PositionsOf(variables, smallIdPos), wSmall)
    ensures multiset(JoinedWith(big, PositionsOf(variables, bigIdPos), record, PositionsOf(variables, smallIdPos),
                                RestPositions(smallPosId, variables, wSmall)))[r]
         == if record == Projection(idPos, r, smallPosId, wSmall) then multiset(big)[r[..wBig]] else 0
  {
    CountJoinedWith(big, wBig, PositionsOf(variables, bigIdPos), record, PositionsOf(variables, smallIdPos),
                    RestPositions(smallPosId, variables, wSmall), r);
    ContributesIffProjection(bigIdPos, bigPosId, wBig, smallIdPos, smallPosId, wSmall, variables, idPos, posId, r, record);
  }

  lemma FactorStep(c: nat, n: nat, m: nat, more: bool, n': nat, m': nat)
    requires m == c * n && n' == (if more then 1 else 0) + n && m' == m + (if more then c else 0)
    ensures m' == c * n'
  {
    OneMoreFactor(c, n, more);
  }

  ghost predicate EachCounts(big: seq<Row>, bigPositions: seq<nat>, small: seq<Row>, smallPositions: seq<nat>,
                             rest: seq<nat>, r: Row, p: Row, c: nat)
    requires forall row :: row in big ==> InRange(bigPositions, |row|)
    requires forall row :: row in small ==> InRange(smallPositions, |row|) && InRange(rest, |row|)
  {
    forall record :: record in small ==>
      multiset(JoinedWith(big, bigPositions, record, smallPositions, rest))[r] == if record == p then c else 0
  }

  lemma CountCons(big: seq<Row>, bigPositions: seq<nat>, small: seq<Row>, smallPositions: seq<nat>, rest: seq<nat>, r: Row, p: Row, c: nat)
    requires forall row :: row in big ==> InRange(bigPositions, |row|)
    requires forall row :: row in small ==> InRange(smallPositions, |row|) && InRange(rest, |row|)
    requires EachCounts(big, bigPositions, small, smallPositions, rest, r, p, c) && small != []
    ensures EachCounts(big, bigPositions, small[1..], smallPositions, rest, r, p, c)
    ensures multiset(JoinedRows(big, bigPositions, small, smallPositions, rest))[r] ==
              multiset(JoinedRows(big, bigPositions, small[1..], smallPositions, rest))[r] + (if small[0] == p then c else 0)
  {
    assert small[0] in small;
    MultisetAppend(JoinedWith(big, bigPositions, small[0], smallPositions, rest),
                   JoinedRows(big, bigPositions, small[1..], smallPositions, rest), r);
  }

  /** If only copies of one record meet a result row, and each meets it c times, the counts multiply. */
  lemma {:induction false} CountOverRecords(big: seq<Row>, bigPositions: seq<nat>, small: seq<Row>, smallPositions: seq<nat>,
                                            rest: seq<nat>, r: Row, p: Row, c: nat)
    requires forall row :: row in big ==> InRange(bigPositions, |row|)
    requires forall row :: row in small ==> InRange(smallPositions, |row|) && InRange(rest, |row|)
    requires EachCounts(big, bigPositions, small, smallPositions, rest, r, p, c)
    ensures multiset(JoinedRows(big, bigPositions, small, smallPositions, rest))[r] == c * multiset(small)[p]
  {
    if small != [] {
      var record, tail := small[0], small[1..];
      CountCons(big, bigPositions, small, smallPositions, rest, r, p, c);
      CountOverRecords(big, bigPositions, tail, smallPositions, rest, r, p, c);
      MultisetCons(record, tail, p);
      assert small == [record] + tail;
      FactorStep(c, multiset(tail)[p], multiset(JoinedRows(big, bigPositions, tail, smallPositions, rest))[r], record == p,
                 multiset(small)[p], multiset(JoinedRows(big, bigPositions, small, smallPositions, rest))[r]);
    }
  }

  /** The natural join as a bag: the multiplicities of the two projections multiply. */
  lemma CountJoinedRows(bigIdPos: PositionValue, bigPosId: PositionValue, wBig: nat,
                        smallIdPos: PositionValue, smallPosId: PositionValue, wSmall: nat,
                        variables: seq<nat>, idPos: PositionValue, posId: PositionValue,
                        big: seq<Row>, small: seq<Row>, r: Row)
    requires Columns(bigIdPos, bigPosId, wBig, smallIdPos, smallPosId, wSmall, variables, idPos, posId)
    requires Rectangle(big, wBig) && Rectangle(small, wSmall)
    requires |r| == wBig + |RestPositions(smallPosId, variables, wSmall)|
    requires forall i :: 0 <= i < wSmall ==> smallPosId[i] in idPos
    requires forall i :: 0 <= i < wBig ==> bigPosId[i] in idPos && idPos[bigPosId[i]] == i
    requires InRange(PositionsOf(variables, bigIdPos), wBig) && InRange(PositionsOf(variables, smallIdPos), wSmall)
    ensures multiset(JoinedRows(big, PositionsOf(variables, bigIdPos), small, PositionsOf(variables, smallIdPos),
                                RestPositions(smallPosId, variables, wSmall)))[r]
         == multiset(big)[r[..wBig]] * multiset(small)[Projection(idPos, r, smallPosId, wSmall)]
  {
    forall record | record in small
      ensures multiset(JoinedWith(big, PositionsOf(variables, bigIdPos), record, PositionsOf(variables, smallIdPos),
                                  RestPositions(smallPosId, variables, wSmall)))[r]
           == if record == Projection(idPos, r, smallPosId, wSmall) then multiset(big)[r[..wBig]] else 0
    {
      CountOneRecord(bigIdPos, bigPosId, wBig, smallIdPos, smallPosId, wSmall, variables, idPos, posId, big, record, r);
    }
    CountOverRecords(big, PositionsOf(variables, bigIdPos), small, PositionsOf(variables, smallIdPos),
                     RestPositions(smallPosId, variables, wSmall), r, Projection(idPos, r, smallPosId, wSmall), multiset(big)[r[..wBig]]);
  }

  lemma MultisetAppend<T>(xs: seq<T>, ys: seq<T>, y: T)
    ensures multiset(xs + ys)[y] == multiset(xs)[y] + multiset(ys)[y]
  {
  }

  lemma OneMoreFactor(a: nat, b: nat, hit: bool)
    ensures (if hit then a else 0) + a * b == a * ((if hit then 1 else 0) + b)
  {
  }
}
