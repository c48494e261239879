/**
 The last steps of the older join: predicate variables are added to the table round by round, and every
 row is written out once for each combination of its satellites' ids.
 */
module OldJoinOutput {
  import opened Rdf
  import opened TableOperator
  import opened TableGrowth
  import opened OldJoin
  import IdList

  // ---- predicate variables ----

  /** The subject or object of a pattern with a predicate variable: a column, a constant, or nothing known. */
  datatype PreEnd = Column(pos: nat) | Fixed(id: nat) | Free

  datatype PreTriple = PreTriple(sub: PreEnd, obj: PreEnd)

  predicate EndInRow(e: PreEnd, row: Row) {
    e.Column? ==> e.pos < |row|
  }

  function EndId(e: PreEnd, row: Row): nat
    requires EndInRow(e, row) && !e.Free?
  {
    if e.Column? then row[e.pos] else e.id
  }

  /** The predicates a pattern allows for a row. A pattern with two unknown ends is a query of its own and allows none here. */
  function PreList(g: Store, t: PreTriple, row: Row): (r: seq<nat>)
    requires EndInRow(t.sub, row) && EndInRow(t.obj, row)
    ensures StrictlyIncreasing(r)
  {
    if t.sub.Free? && t.obj.Free? then []
    else if t.sub.Free? then PreIdsByObj(g, EndId(t.obj, row))
    else if t.obj.Free? then PreIdsBySub(g, EndId(t.sub, row))
    else PreIdsBySubObj(g, EndId(t.sub, row), EndId(t.obj, row))
  }

  ghost predicate AllInRow(triples: seq<PreTriple>, row: Row) {
    forall t :: t in triples ==> EndInRow(t.sub, row) && EndInRow(t.obj, row)
  }

  /** The row's triple with the predicate is stored, for whatever ids the unknown end may take. */
  ghost predicate PreHolds(g: Store, t: PreTriple, row: Row, p: nat)
    requires EndInRow(t.sub, row) && EndInRow(t.obj, row)
  {
    (!t.sub.Free? || !t.obj.Free?) &&
    exists x: Triple :: x in g && x.p == p && (!t.sub.Free? ==> x.s == EndId(t.sub, row)) && (!t.obj.Free? ==> x.o == EndId(t.obj, row))
  }

  lemma InPreList(g: Store, t: PreTriple, row: Row, p: nat)
    requires EndInRow(t.sub, row) && EndInRow(t.obj, row)
    ensures p in PreList(g, t, row) <==> PreHolds(g, t, row, p)
  {
    if x: Triple :| x in g && x.p == p && (!t.sub.Free? ==> x.s == EndId(t.sub, row)) && (!t.obj.Free? ==> x.o == EndId(t.obj, row)) {
      assert Triple(x.s, p, x.o) in g;
    }
    if p in PreList(g, t, row) {
      if t.sub.Free? {
        var s :| Triple(s, p, EndId(t.obj, row)) in g;
        assert Triple(s, p, EndId(t.obj, row)).p == p;
      } else if t.obj.Free? {
        var o :| Triple(EndId(t.sub, row), p, o) in g;
        assert Triple(EndId(t.sub, row), p, o).p == p;
      } else {
        assert Triple(EndId(t.sub, row), p, EndId(t.obj, row)).p == p;
      }
    }
  }

  ghost predicate PreAllowed(g: Store, triples: seq<PreTriple>, row: Row, p: nat)
    requires AllInRow(triples, row)
  {
    forall t :: t in triples ==> PreHolds(g, t, row, p)
  }

  /** The predicates all patterns of the variable allow, in increasing order. */
  method PreCandidates(g: Store, triples: seq<PreTriple>, row: Row) returns (valid: seq<nat>)
    requires AllInRow(triples, row) && triples != []
    ensures StrictlyIncreasing(valid) && forall p :: p in valid <==> PreAllowed(g, triples, row, p)
  {
    valid := [];
    var j := 0;
    while j < |triples|
      invariant 0 <= j <= |triples| && StrictlyIncreasing(valid)
      invariant j > 0 ==> forall p :: p in valid <==> PreAllowed(g, triples[..j], row, p)
    {
      var t := triples[j];
      assert t in triples;
      var list := PreList(g, t, row);
      forall p ensures p in list <==> PreHolds(g, t, row, p) {
        InPreList(g, t, row, p);
      }
      ghost var before := valid;
      if j == 0 {
        valid := list;
      } else {
        IdList.IntersectionIncreasing(valid, list);
        valid := IdList.Intersection(valid, list);
      }
      forall p ensures p in valid <==> PreAllowed(g, triples[..j + 1], row, p) {
        PreAllowedSnoc(g, triples[..j], t, row, p);
        assert triples[..j + 1] == triples[..j] + [t];
      }
      j := j + 1;
      if valid == [] {
        forall p ensures !PreAllowed(g, triples, row, p) {
          assert p !in valid;
          NotAllowedByPrefix(g, triples, j, row, p);
        }
        return;
      }
    }
    assert triples[..j] == triples;
  }

  lemma NotAllowedByPrefix(g: Store, triples: seq<PreTriple>, j: nat, row: Row, p: nat)
    requires j <= |triples| && AllInRow(triples, row) && !PreAllowed(g, triples[..j], row, p)
    ensures !PreAllowed(g, triples, row, p)
  {
    assert forall t :: t in triples[..j] ==> t in triples;
  }

  lemma PreAllowedSnoc(g: Store, triples: seq<PreTriple>, t: PreTriple, row: Row, p: nat)
    requires AllInRow(triples, row) && EndInRow(t.sub, row) && EndInRow(t.obj, row)
    ensures AllInRow(triples + [t], row)
    ensures PreAllowed(g, triples + [t], row, p) <==> PreAllowed(g, triples, row, p) && PreHolds(g, t, row, p)
  {
    assert forall k :: k in triples + [t] <==> k in triples || k == t;
  }

  /** The predicates each row allows, as a function of the row. */
  ghost function PreChoice(g: Store, triples: seq<PreTriple>): Choice {
    (row: Row) => if triples != [] && AllInRow(triples, row) then
                    assert triples[0] in triples;
                    SortedIds(set p | p in PreList(g, triples[0], row) && PreAllowed(g, triples, row, p))
                  else []
  }

  lemma PreChoiceMeaning(g: Store, triples: seq<PreTriple>, row: Row)
    requires triples != [] && AllInRow(triples, row)
    ensures StrictlyIncreasing(PreChoice(g, triples)(row))
    ensures forall p :: p in PreChoice(g, triples)(row) <==> PreAllowed(g, triples, row, p)
  {
    assert triples[0] in triples;
    forall p ensures p in PreChoice(g, triples)(row) <==> PreAllowed(g, triples, row, p) {
      InPreList(g, triples[0], row, p);
    }
  }

  /** One row of a round: the row at the iterator gets its first predicate, or goes. */
  method PreRow(j: Join, g: Store, triples: seq<PreTriple>, it: nat, started: bool, ghost input: seq<Row>, ghost done: nat)
    returns (next: nat, startedNow: bool)
    requires done < |input| && triples != [] && AllInRow(triples, input[done])
    requires Walking(j.currentTable, j.newStart, it, PreChoice(g, triples), input, done)
    requires started <==> Appended(PreChoice(g, triples), input[..done]) != []
    modifies j`currentTable, j`newStart
    ensures Walking(j.currentTable, j.newStart, next, PreChoice(g, triples), input, done + 1)
    ensures startedNow <==> Appended(PreChoice(g, triples), input[..done + 1]) != []
  {
    ghost var valid := PreChoice(g, triples);
    ghost var before, border := j.currentTable, j.newStart;
    WalkEnds(j.currentTable, j.newStart, it, valid, input, done);
    var ids := PreCandidates(g, triples, j.currentTable[it]);
    PreChoiceMeaning(g, triples, input[done]);
    SortedUnique(ids, valid(input[done]));
    next, startedNow := j.GrowRow(it, ids, started);
    WalkStep(before, border, it, valid, input, done, next, j.currentTable);
    OneMoreRow(valid, input, done);
  }

  /** The walk of a round over the rows that were there when it started. */
  method PreWalk(j: Join, g: Store, triples: seq<PreTriple>, ghost valid: Choice)
    requires triples != [] && j.newStart == End && valid == PreChoice(g, triples)
    requires forall row :: row in j.currentTable ==> AllInRow(triples, row)
    modifies j`currentTable, j`newStart
    ensures j.currentTable == Kept(valid, old(j.currentTable)) + Appended(valid, old(j.currentTable))
  {
    ghost var input := j.currentTable;
    var it, started := 0, false;
    ghost var done: nat := 0;
    WalkStarts(valid, input);
    while !j.AtBorder(it)
      invariant done <= |input| && Walking(j.currentTable, j.newStart, it, valid, input, done)
      invariant started <==> Appended(valid, input[..done]) != []
      decreases |input| - done
    {
      WalkEnds(j.currentTable, j.newStart, it, valid, input, done);
      NextInRow(triples, input, done);
      it, started := PreRow(j, g, triples, it, started, input, done);
      done := done + 1;
    }
    WalkEnds(j.currentTable, j.newStart, it, valid, input, done);
    WalkDone(valid, input);
  }

  lemma NextInRow(triples: seq<PreTriple>, input: seq<Row>, done: nat)
    requires done < |input| && forall row :: row in input ==> AllInRow(triples, row)
    ensures AllInRow(triples, input[done])
  {
    assert input[done] in input;
  }

  /**
   One round of the predicate-variable pass: the variable gets a column, and the table becomes the rows
   that stay followed by the new ones; no new row is visited.
   */
  method PreVarRound(j: Join, g: Store, triples: seq<PreTriple>, column: nat)
    requires triples != [] && j.newStart == End && forall row :: row in j.currentTable ==> AllInRow(triples, row)
    modifies j`currentTable, j`newStart, j`id2pos, j`pos2id, j`idPos
    ensures j.newStart == End && j.idPos == old(j.idPos) + 1
    ensures j.pos2id == old(j.pos2id)[old(j.idPos) := column] && j.id2pos == old(j.id2pos)[column := old(j.idPos)]
    ensures j.currentTable == Kept(PreChoice(g, triples), old(j.currentTable)) + Appended(PreChoice(g, triples), old(j.currentTable))
    ensures multiset(j.currentTable) == multiset(AllGrown(PreChoice(g, triples), old(j.currentTable)))
  {
    j.AddIdPosMapping(column);
    GrownAsBag(PreChoice(g, triples), j.currentTable);
    PreWalk(j, g, triples, PreChoice(g, triples));
    j.newStart := End;
  }

  // ---- satellites ----

  /** A satellite of a row: where its id goes in the record, and the ids it may take. */
  datatype Satellite = Satellite(vpos: nat, idlist: seq<nat>)

  /** The record with the satellites' ids in all combinations, in the order of nested loops. */
  ghost function Product(record: seq<nat>, satellites: seq<Satellite>): seq<seq<nat>>
    requires forall s :: s in satellites ==> s.vpos < |record|
    decreases |satellites|
  {
    if satellites == [] then [record] else
      assert satellites[0] in satellites;
      ProductOver(record, satellites, satellites[0].idlist)
  }

  /** The part of the product in which the first satellite takes the given ids, one after the other. */
  ghost function ProductOver(record: seq<nat>, satellites: seq<Satellite>, ids: seq<nat>): seq<seq<nat>>
    requires satellites != [] && forall s :: s in satellites ==> s.vpos < |record|
    decreases |satellites|, |ids|
  {
    if ids == [] then [] else
      assert satellites[0] in satellites;
      ProductOver(record, satellites, ids[..|ids| - 1]) + Product(record[satellites[0].vpos := ids[|ids| - 1]], satellites[1..])
  }

  function Positions(satellites: seq<Satellite>): set<nat> {
    set s | s in satellites :: s.vpos
  }

  predicate PositionsIn(satellites: seq<Satellite>, n: nat) {
    forall s :: s in satellites ==> s.vpos < n
  }

  /** Two records of the same length that agree outside some positions. */
  ghost predicate AgreeOutside(a: seq<nat>, b: seq<nat>, positions: set<nat>) {
    |a| == |b| && forall k :: 0 <= k < |a| && k !in positions ==> a[k] == b[k]
  }

  /** What is left at the satellites' positions does not matter: they are overwritten. */
  lemma {:induction false} ProductOverwrites(a: seq<nat>, b: seq<nat>, satellites: seq<Satellite>)
    requires AgreeOutside(a, b, Positions(satellites)) && PositionsIn(satellites, |a|)
    ensures Product(a, satellites) == Product(b, satellites)
    decreases |satellites|
  {
    if satellites == [] {
      assert a == b;
    } else {
      ProductOverOverwrites(a, b, satellites, satellites[0].idlist);
    }
  }

  lemma {:induction false} ProductOverOverwrites(a: seq<nat>, b: seq<nat>, satellites: seq<Satellite>, ids: seq<nat>)
    requires satellites != [] && AgreeOutside(a, b, Positions(satellites)) && PositionsIn(satellites, |a|)
    ensures ProductOver(a, satellites, ids) == ProductOver(b, satellites, ids)
    decreases |satellites|, |ids|
  {
    if ids != [] {
      var first, x := satellites[0], ids[|ids| - 1];
      assert first in satellites && satellites == [first] + satellites[1..];
      ProductOverOverwrites(a, b, satellites, ids[..|ids| - 1]);
      assert AgreeOutside(a[first.vpos := x], b[first.vpos := x], Positions(satellites[1..])) by {
        forall k | 0 <= k < |a| && k !in Positions(satellites[1..]) ensures a[first.vpos := x][k] == b[first.vpos := x][k] {
          assert k == first.vpos || k !in Positions(satellites);
        }
      }
      ProductOverwrites(a[first.vpos := x], b[first.vpos := x], satellites[1..]);
    }
  }

  class ResultWriter {
    var record: array<nat>
    var resultList: seq<seq<nat>>

    constructor (recordLen: nat)
      ensures fresh(record) && record.Length == recordLen && resultList == []
    {
      record := new nat[recordLen];
      resultList := [];
    }

    /** Writes all combinations of the satellites from the given one on, reusing one record. */
    method Cartesian(satellites: seq<Satellite>, pos: nat)
      requires pos <= |satellites| && PositionsIn(satellites, record.Length)
      modifies this`resultList, record
      ensures resultList == old(resultList) + Product(old(record[..]), satellites[pos..])
      ensures AgreeOutside(record[..], old(record[..]), Positions(satellites[pos..]))
      decreases |satellites| - pos, 1
    {
      if pos == |satellites| {
        resultList := resultList + [record[..]];
        return;
      }
      var list := satellites[pos].idlist;
      ghost var start, before := record[..], resultList;
      assert satellites[pos..] == [satellites[pos]] + satellites[pos + 1..];
      var i := 0;
      while i < |list|
        invariant 0 <= i <= |list|
        invariant resultList == before + ProductOver(start, satellites[pos..], list[..i])
        invariant AgreeOutside(record[..], start, Positions(satellites[pos..]))
      {
        OneId(satellites, pos, list[i], start, record[..]);
        record[satellites[pos].vpos] := list[i];
        Cartesian(satellites, pos + 1);
        assert list[..i + 1][..i] == list[..i];
        i := i + 1;
      }
      assert list[..i] == list;
    }
  }

  /** Writing one id over a used record makes the same rest of the product as writing it over the fresh one. */
  lemma OneId(satellites: seq<Satellite>, pos: nat, x: nat, start: seq<nat>, current: seq<nat>)
    requires pos < |satellites| && PositionsIn(satellites, |start|) && AgreeOutside(current, start, Positions(satellites[pos..]))
    ensures satellites[pos..][1..] == satellites[pos + 1..]
    ensures Product(current[satellites[pos].vpos := x], satellites[pos + 1..]) == Product(start[satellites[pos].vpos := x], satellites[pos + 1..])
    ensures forall r :: AgreeOutside(r, current[satellites[pos].vpos := x], Positions(satellites[pos + 1..])) ==>
              AgreeOutside(r, start, Positions(satellites[pos..]))
  {
    var v := satellites[pos].vpos;
    assert satellites[pos..] == [satellites[pos]] + satellites[pos + 1..];
    assert Positions(satellites[pos..]) == {v} + Positions(satellites[pos + 1..]);
    ProductOverwrites(current[v := x], start[v := x], satellites[pos + 1..]);
  }

  // ---- what the product is ----

  /** Different satellites go to different places. */
  predicate DistinctPositions(satellites: seq<Satellite>) {
    forall i, j :: 0 <= i < j < |satellites| ==> satellites[i].vpos != satellites[j].vpos
  }

  ghost predicate IsCombination(x: seq<nat>, record: seq<nat>, satellites: seq<Satellite>)
    requires PositionsIn(satellites, |record|)
  {
    AgreeOutside(x, record, Positions(satellites)) && forall s :: s in satellites ==> x[s.vpos] in s.idlist
  }

  lemma RestPositions(satellites: seq<Satellite>)
    requires satellites != [] && DistinctPositions(satellites)
    ensures DistinctPositions(satellites[1..]) && satellites[0].vpos !in Positions(satellites[1..])
    ensures Positions(satellites) == {satellites[0].vpos} + Positions(satellites[1..])
    ensures forall s :: s in satellites <==> s == satellites[0] || s in satellites[1..]
  {
    assert satellites == [satellites[0]] + satellites[1..];
    forall s | s in satellites[1..] ensures s.vpos != satellites[0].vpos {
      var k :| 0 <= k < |satellites[1..]| && satellites[1..][k] == s;
      assert satellites[k + 1] == s;
    }
  }

  lemma FirstSatellite(x: seq<nat>, record: seq<nat>, satellites: seq<Satellite>, id: nat)
    requires satellites != [] && DistinctPositions(satellites) && PositionsIn(satellites, |record|)
    ensures satellites[0] in satellites
    ensures IsCombination(x, record[satellites[0].vpos := id], satellites[1..]) <==>
              |x| == |record| && x[satellites[0].vpos] == id && AgreeOutside(x, record, Positions(satellites))
              && forall s :: s in satellites[1..] ==> x[s.vpos] in s.idlist
  {
    RestPositions(satellites);
  }

  /** The product holds exactly the records that differ from the given one by one id per satellite. */
  lemma {:induction false} ProductMembers(record: seq<nat>, satellites: seq<Satellite>, x: seq<nat>)
    requires PositionsIn(satellites, |record|) && DistinctPositions(satellites)
    ensures x in Product(record, satellites) <==> IsCombination(x, record, satellites)
    decreases |satellites|
  {
    if satellites == [] {
      assert AgreeOutside(x, record, {}) <==> x == record;
    } else {
      RestPositions(satellites);
      ProductOverMembers(record, satellites, satellites[0].idlist, x);
    }
  }

  lemma {:induction false} ProductOverMembers(record: seq<nat>, satellites: seq<Satellite>, ids: seq<nat>, x: seq<nat>)
    requires satellites != [] && PositionsIn(satellites, |record|) && DistinctPositions(satellites)
    ensures satellites[0] in satellites
    ensures x in ProductOver(record, satellites, ids) <==>
              |x| == |record| && x[satellites[0].vpos] in ids && AgreeOutside(x, record, Positions(satellites))
              && forall s :: s in satellites[1..] ==> x[s.vpos] in s.idlist
    decreases |satellites|, |ids|
  {
    RestPositions(satellites);
    if ids != [] {
      var id := ids[|ids| - 1];
      ProductOverMembers(record, satellites, ids[..|ids| - 1], x);
      ProductMembers(record[satellites[0].vpos := id], satellites[1..], x);
      FirstSatellite(x, record, satellites, id);
      assert ids == ids[..|ids| - 1] + [id];
    }
  }

  function IdsOf(x: seq<nat>, satellites: seq<Satellite>): seq<nat>
    requires PositionsIn(satellites, |x|)
  {
    seq(|satellites|, i requires 0 <= i < |satellites| => assert satellites[i] in satellites; x[satellites[i].vpos])
  }

  predicate LexLess(a: seq<nat>, b: seq<nat>) {
    |a| == |b| > 0 && (a[0] < b[0] || (a[0] == b[0] && LexLess(a[1..], b[1..])))
  }

  /** The records come in the lexicographic order of the satellites' ids, so each of them comes once. */
  ghost predicate LexIncreasing(records: seq<seq<nat>>, satellites: seq<Satellite>, width: nat) {
    && (forall x :: x in records ==> |x| == width) && PositionsIn(satellites, width)
    && forall i, j :: 0 <= i < j < |records| ==> LexLess(IdsOf(records[i], satellites), IdsOf(records[j], satellites))
  }

  lemma IdsOfFirst(x: seq<nat>, satellites: seq<Satellite>)
    requires satellites != [] && PositionsIn(satellites, |x|)
    ensures satellites[0] in satellites && IdsOf(x, satellites)[0] == x[satellites[0].vpos]
    ensures PositionsIn(satellites[1..], |x|) && IdsOf(x, satellites)[1..] == IdsOf(x, satellites[1..])
  {
    assert satellites == [satellites[0]] + satellites[1..];
  }

  lemma LexAppend(a: seq<seq<nat>>, b: seq<seq<nat>>, satellites: seq<Satellite>, width: nat, id: nat)
    requires satellites != [] && PositionsIn(satellites, width)
    requires LexIncreasing(a, satellites, width) && (forall x :: x in b ==> |x| == width) && LexIncreasing(b, satellites[1..], width)
    requires satellites[0] in satellites
    requires (forall x :: x in a ==> x[satellites[0].vpos] < id) && (forall x :: x in b ==> x[satellites[0].vpos] == id)
    ensures LexIncreasing(a + b, satellites, width)
  {
    forall i, j | 0 <= i < j < |a + b| ensures LexLess(IdsOf((a + b)[i], satellites), IdsOf((a + b)[j], satellites)) {
      var x, y := (a + b)[i], (a + b)[j];
      assert x in a + b && y in a + b;
      IdsOfFirst(x, satellites);
      IdsOfFirst(y, satellites);
      if j >= |a| {
        assert y == b[j - |a|] && y in b;
        if i < |a| {
          assert x == a[i] && x in a;
        } else {
          assert x == b[i - |a|] && x in b;
        }
      }
    }
  }

  lemma {:induction false} ProductIncreasing(record: seq<nat>, satellites: seq<Satellite>)
    requires PositionsIn(satellites, |record|) && DistinctPositions(satellites)
    requires forall s :: s in satellites ==> StrictlyIncreasing(s.idlist)
    ensures LexIncreasing(Product(record, satellites), satellites, |record|)
    decreases |satellites|
  {
    if satellites != [] {
      assert satellites[0] in satellites;
      ProductOverIncreasing(record, satellites, satellites[0].idlist);
    }
  }

  lemma {:induction false} ProductOverIncreasing(record: seq<nat>, satellites: seq<Satellite>, ids: seq<nat>)
    requires satellites != [] && PositionsIn(satellites, |record|) && DistinctPositions(satellites)
    requires (forall s :: s in satellites ==> StrictlyIncreasing(s.idlist)) && StrictlyIncreasing(ids)
    ensures LexIncreasing(ProductOver(record, satellites, ids), satellites, |record|)
    decreases |satellites|, |ids|
  {
    RestPositions(satellites);
    if ids != [] {
      var id, init := ids[|ids| - 1], ids[..|ids| - 1];
      var changed := record[satellites[0].vpos := id];
      ProductOverIncreasing(record, satellites, init);
      ProductIncreasing(changed, satellites[1..]);
      var a, b := ProductOver(record, satellites, init), Product(changed, satellites[1..]);
      forall x | x in a ensures x[satellites[0].vpos] < id {
        ProductOverMembers(record, satellites, init, x);
        var k :| 0 <= k < |init| && init[k] == x[satellites[0].vpos];
        assert ids[k] < ids[|ids| - 1];
      }
      forall x | x in b ensures x[satellites[0].vpos] == id {
        ProductMembers(changed, satellites[1..], x);
        FirstSatellite(x, record, satellites, id);
      }
      LexAppend(a, b, satellites, |record|, id);
    }
  }

  // ---- writing out the table ----

  /** An edge from a column to a satellite, and the satellite's place in the record. */
  datatype SatelliteEdge = SatelliteEdge(column: nat, edgeOut: bool, pre: PreEnd, vpos: nat)

  /** Where each column goes in the record, if anywhere; the columns' and the satellites' places fill the record. */
  datatype Layout = Layout(targets: seq<int>, edges: seq<SatelliteEdge>, recordLen: nat) {
    ghost predicate Valid() {
      && (forall i :: 0 <= i < |targets| ==> targets[i] < recordLen)
      && (forall e :: e in edges ==> e.column < |targets| && !e.pre.Free? && (e.pre.Column? ==> e.pre.pos < |targets|) && e.vpos < recordLen)
      && (forall i, j :: 0 <= i < j < |edges| ==> edges[i].vpos != edges[j].vpos)
      && (forall k :: 0 <= k < recordLen ==> k in targets || exists e :: e in edges && e.vpos == k)
    }
  }

  function SatelliteList(g: Store, e: SatelliteEdge, row: Row): (r: seq<nat>)
    requires e.column < |row| && EndInRow(e.pre, row) && !e.pre.Free?
    ensures StrictlyIncreasing(r)
    ensures forall x :: x in r <==> (if e.edgeOut then Triple(row[e.column], EndId(e.pre, row), x) else Triple(x, EndId(e.pre, row), row[e.column])) in g
  {
    if e.edgeOut then ObjIdsBySubPre(g, row[e.column], EndId(e.pre, row)) else SubIdsByObjPre(g, row[e.column], EndId(e.pre, row))
  }

  ghost function SatellitesOf(g: Store, l: Layout, row: Row): seq<Satellite>
    requires l.Valid() && |row| == |l.targets|
  {
    seq(|l.edges|, i requires 0 <= i < |l.edges| =>
      assert l.edges[i] in l.edges; Satellite(l.edges[i].vpos, SatelliteList(g, l.edges[i], row)))
  }

  /** The record after the columns from the first to the given one have been written into it. */
  ghost function Written(record: seq<nat>, row: Row, targets: seq<int>, n: nat): (r: seq<nat>)
    requires n <= |row| == |targets| && forall i :: 0 <= i < |targets| ==> targets[i] < |record|
    ensures |r| == |record|
  {
    if n == 0 then record else
      var before := Written(record, row, targets, n - 1);
      if targets[n - 1] >= 0 then before[targets[n - 1] := row[n - 1]] else before
  }

  /** Two records agree after writing wherever they agreed before and wherever a column was written. */
  lemma {:induction false} WrittenAgree(a: seq<nat>, b: seq<nat>, row: Row, targets: seq<int>, n: nat, k: nat)
    requires n <= |row| == |targets| && |a| == |b| && (forall i :: 0 <= i < |targets| ==> targets[i] < |a|) && k < |a|
    requires a[k] == b[k] || k in targets[..n]
    ensures Written(a, row, targets, n)[k] == Written(b, row, targets, n)[k]
    decreases n
  {
    if n > 0 && targets[n - 1] != k {
      assert targets[..n] == targets[..n - 1] + [targets[n - 1]];
      WrittenAgree(a, b, row, targets, n - 1, k);
    }
  }

  /** The records of one row: its columns in their places, combined with its satellites. */
  ghost function RowRecords(g: Store, l: Layout, row: Row): seq<seq<nat>>
    requires l.Valid() && |row| == |l.targets|
  {
    Product(Written(seq(l.recordLen, k => 0), row, l.targets, |row|), SatellitesOf(g, l, row))
  }

  ghost function TableRecords(g: Store, l: Layout, rows: seq<Row>): seq<seq<nat>>
    requires l.Valid() && forall row :: row in rows ==> |row| == |l.targets|
  {
    if rows == [] then [] else TableRecords(g, l, rows[..|rows| - 1]) + (assert rows[|rows| - 1] in rows; RowRecords(g, l, rows[|rows| - 1]))
  }

  lemma SatellitesFit(g: Store, l: Layout, row: Row)
    requires l.Valid() && |row| == |l.targets|
    ensures PositionsIn(SatellitesOf(g, l, row), l.recordLen) && DistinctPositions(SatellitesOf(g, l, row))
    ensures forall e :: e in l.edges ==> e.vpos in Positions(SatellitesOf(g, l, row))
    ensures forall s :: s in SatellitesOf(g, l, row) ==> StrictlyIncreasing(s.idlist)
  {
    var satellites := SatellitesOf(g, l, row);
    forall s | s in satellites ensures s.vpos < l.recordLen && StrictlyIncreasing(s.idlist) {
      var i :| 0 <= i < |satellites| && satellites[i] == s;
      assert l.edges[i] in l.edges;
    }
    forall e | e in l.edges ensures e.vpos in Positions(satellites) {
      var i :| 0 <= i < |l.edges| && l.edges[i] == e;
      assert satellites[i] in satellites && satellites[i].vpos == e.vpos;
    }
  }

  /** Whatever an earlier row left in the record does not show. */
  lemma RowRecordsFromAny(g: Store, l: Layout, row: Row, record: seq<nat>)
    requires l.Valid() && |row| == |l.targets| && |record| == l.recordLen
    ensures PositionsIn(SatellitesOf(g, l, row), l.recordLen)
    ensures Product(Written(record, row, l.targets, |row|), SatellitesOf(g, l, row)) == RowRecords(g, l, row)
  {
    var zeros := seq(l.recordLen, k => 0);
    var a, b := Written(record, row, l.targets, |row|), Written(zeros, row, l.targets, |row|);
    SatellitesFit(g, l, row);
    forall k: nat | k < l.recordLen && k !in Positions(SatellitesOf(g, l, row)) ensures a[k] == b[k] {
      assert k in l.targets && l.targets[..|row|] == l.targets;
      WrittenAgree(record, zeros, row, l.targets, |row|, k);
    }
    ProductOverwrites(a, b, SatellitesOf(g, l, row));
  }

  /** A row with a satellite that can take no id makes no record. */
  lemma EmptySatellite(g: Store, l: Layout, row: Row, i: nat)
    requires l.Valid() && |row| == |l.targets| && i < |l.edges|
    requires SatellitesOf(g, l, row)[i].idlist == []
    ensures RowRecords(g, l, row) == []
  {
    var base := Written(seq(l.recordLen, k => 0), row, l.targets, |row|);
    var satellites := SatellitesOf(g, l, row);
    SatellitesFit(g, l, row);
    assert satellites[i] in satellites;
    forall x ensures x !in Product(base, satellites) {
      ProductMembers(base, satellites, x);
    }
    NoMembers(Product(base, satellites));
  }

  lemma NoMembers<T>(xs: seq<T>)
    requires forall x :: x !in xs
    ensures xs == []
  {
    forall x ensures multiset(xs)[x] == 0 {
      assert x !in xs;
    }
    assert |multiset(xs)| == 0;
  }

  /** Writes out one row: its columns first, then all combinations of its satellites unless one of them has no id. */
  method CopyRow(w: ResultWriter, g: Store, l: Layout, row: Row)
    requires l.Valid() && |row| == |l.targets| && w.record.Length == l.recordLen
    modifies w`resultList, w.record
    ensures w.resultList == old(w.resultList) + RowRecords(g, l, row)
  {
    ghost var before := w.record[..];
    WriteColumns(w, row, l.targets);
    RowRecordsFromAny(g, l, row, before);
    SatellitesFit(g, l, row);
    var valid, satellites := RowSatellites(g, l, row);
    if valid {
      assert satellites[0..] == satellites;
      w.Cartesian(satellites, 0);
    }
  }

  method NextSatellite(g: Store, l: Layout, row: Row, i: nat) returns (s: Satellite)
    requires l.Valid() && |row| == |l.targets| && i < |l.edges|
    ensures s == SatellitesOf(g, l, row)[i]
  {
    assert l.edges[i] in l.edges;
    s := Satellite(l.edges[i].vpos, SatelliteList(g, l.edges[i], row));
  }

  /** The satellites of a row, unless one of them has no id. */
  method RowSatellites(g: Store, l: Layout, row: Row) returns (valid: bool, satellites: seq<Satellite>)
    requires l.Valid() && |row| == |l.targets|
    ensures valid ==> satellites == SatellitesOf(g, l, row)
    ensures !valid ==> RowRecords(g, l, row) == []
  {
    satellites := [];
    var i := 0;
    while i < |l.edges|
      invariant 0 <= i <= |l.edges| && satellites == SatellitesOf(g, l, row)[..i]
    {
      var satellite := NextSatellite(g, l, row, i);
      if satellite.idlist == [] {
        EmptySatellite(g, l, row, i);
        return false, satellites;
      }
      satellites := satellites + [satellite];
      i := i + 1;
    }
    valid := true;
  }

  method WriteColumns(w: ResultWriter, row: Row, targets: seq<int>)
    requires |row| == |targets| && forall i :: 0 <= i < |targets| ==> targets[i] < w.record.Length
    modifies w.record
    ensures w.record[..] == Written(old(w.record[..]), row, targets, |row|)
  {
    var i := 0;
    while i < |row|
      invariant 0 <= i <= |row|
      invariant w.record[..] == Written(old(w.record[..]), row, targets, i)
    {
      if targets[i] >= 0 {
        w.record[targets[i]] := row[i];
      }
      i := i + 1;
    }
  }

  /** Writes out the whole table, row by row. */
  method CopyToResult(w: ResultWriter, g: Store, l: Layout, rows: seq<Row>)
    requires l.Valid() && w.record.Length == l.recordLen && forall row :: row in rows ==> |row| == |l.targets|
    modifies w`resultList, w.record
    ensures w.resultList == TableRecords(g, l, rows)
  {
    w.resultList := [];
    var i := 0;
    while i < |rows|
      invariant 0 <= i <= |rows| && w.record == old(w.record)
      invariant w.resultList == TableRecords(g, l, rows[..i])
    {
      assert rows[i] in rows;
      CopyRow(w, g, l, rows[i]);
      assert rows[..i + 1][..i] == rows[..i];
      i := i + 1;
    }
    assert rows[..i] == rows;
  }

  /** What one row is written out as: each combination of its satellites' ids once, in lexicographic order. */
  lemma RowRecordsMeaning(g: Store, l: Layout, row: Row, x: seq<nat>)
    requires l.Valid() && |row| == |l.targets|
    ensures PositionsIn(SatellitesOf(g, l, row), l.recordLen)
    ensures x in RowRecords(g, l, row) <==> IsCombination(x, Written(seq(l.recordLen, k => 0), row, l.targets, |row|), SatellitesOf(g, l, row))
    ensures LexIncreasing(RowRecords(g, l, row), SatellitesOf(g, l, row), l.recordLen)
  {
    var base := Written(seq(l.recordLen, k => 0), row, l.targets, |row|);
    SatellitesFit(g, l, row);
    ProductMembers(base, SatellitesOf(g, l, row), x);
    ProductIncreasing(base, SatellitesOf(g, l, row));
  }
}
