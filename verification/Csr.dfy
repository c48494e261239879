/** The compressed adjacency lists that are built from the store when it is loaded, one row a predicate. */
module Csr {
  import opened Rdf

  datatype Row = Row(id2vid: seq<nat>, vid2id: map<nat, nat>, offsets: seq<nat>, adjacency: seq<nat>)

  const EMPTY_ROW := Row([], map[], [], [])

  /** A vertex and its neighbours at the end of a row; a vertex without neighbours is left out. */
  function Appended(row: Row, v: nat, neighbours: seq<nat>): Row {
    if neighbours == [] then row
    else Row(row.id2vid + [v], row.vid2id[v := |row.id2vid|], row.offsets + [|row.adjacency|], row.adjacency + neighbours)
  }

  function EntitiesOnly(ids: seq<nat>): (r: seq<nat>)
    ensures forall x :: x in r <==> x in ids && x < LITERAL_FIRST_ID
  {
    if ids == [] then [] else
      var last := ids[|ids| - 1];
      assert ids == ids[..|ids| - 1] + [last];
      EntitiesOnly(ids[..|ids| - 1]) + (if last < LITERAL_FIRST_ID then [last] else [])
  }

  lemma {:induction false} EntitiesOnlyIncreasing(ids: seq<nat>)
    requires StrictlyIncreasing(ids)
    ensures StrictlyIncreasing(EntitiesOnly(ids))
  {
    if ids != [] {
      var init, last := ids[..|ids| - 1], ids[|ids| - 1];
      EntitiesOnlyIncreasing(init);
      forall k | 0 <= k < |EntitiesOnly(init)| ensures EntitiesOnly(init)[k] < last {
        assert EntitiesOnly(init)[k] in init;
      }
    }
  }

  lemma EntitiesOnlySnoc(ids: seq<nat>, k: nat)
    requires k < |ids|
    ensures EntitiesOnly(ids[..k + 1]) == EntitiesOnly(ids[..k]) + (if ids[k] < LITERAL_FIRST_ID then [ids[k]] else [])
  {
    assert ids[..k + 1][..k] == ids[..k];
  }

  // ---- what a row should be ----

  /** The edges of one predicate between entities, followed along or against their direction. */
  datatype EdgesOf = EdgesOf(g: Store, p: nat, outgoing: bool) {
    function Vertices(): (r: seq<nat>)
      ensures StrictlyIncreasing(r)
    {
      if outgoing then SubIdsByPre(g, p) else ObjIdsByPre(g, p)
    }

    function Neighbours(v: nat): seq<nat> {
      if outgoing then EntitiesOnly(ObjIdsBySubPre(g, v, p))
      else if v < LITERAL_FIRST_ID then SubIdsByObjPre(g, v, p) else []
    }
  }

  lemma NeighboursIncreasing(e: EdgesOf, v: nat)
    ensures StrictlyIncreasing(e.Neighbours(v))
  {
    if e.outgoing {
      EntitiesOnlyIncreasing(ObjIdsBySubPre(e.g, v, e.p));
    }
  }

  function SliceEnd(row: Row, k: nat): nat
    requires k < |row.offsets|
  {
    if k + 1 < |row.offsets| then row.offsets[k + 1] else |row.adjacency|
  }

  /** Slice k runs from its offset to the next one, and the slices cover the adjacency list. */
  ghost predicate Sliced(row: Row) {
    && |row.offsets| == |row.id2vid|
    && (forall k :: 0 <= k < |row.offsets| ==> row.offsets[k] < SliceEnd(row, k) <= |row.adjacency|)
    && (if row.offsets == [] then row.adjacency == [] else row.offsets[0] == 0)
  }

  function Slice(row: Row, k: nat): seq<nat>
    requires k < |row.offsets| && row.offsets[k] <= SliceEnd(row, k) <= |row.adjacency|
  {
    row.adjacency[row.offsets[k]..SliceEnd(row, k)]
  }

  ghost predicate Numbered(row: Row) {
    && (forall k :: 0 <= k < |row.id2vid| ==> row.id2vid[k] in row.vid2id && row.vid2id[row.id2vid[k]] == k)
    && (forall v :: v in row.vid2id ==> row.vid2id[v] < |row.id2vid| && row.id2vid[row.vid2id[v]] == v)
  }

  /** The row lists, in increasing order, the given vertices that have neighbours, each with exactly those. */
  ghost predicate Exact(row: Row, vertices: seq<nat>, e: EdgesOf) {
    && Sliced(row) && Numbered(row) && StrictlyIncreasing(row.id2vid)
    && (forall v :: v in row.id2vid <==> v in vertices && e.Neighbours(v) != [])
    && (forall k :: 0 <= k < |row.id2vid| ==> Slice(row, k) == e.Neighbours(row.id2vid[k]))
  }

  lemma SliceKept(row: Row, v: nat, more: seq<nat>, k: nat)
    requires Sliced(row) && more != [] && k < |row.id2vid|
    ensures SliceEnd(Appended(row, v, more), k) == SliceEnd(row, k)
    ensures Appended(row, v, more).offsets[k] == row.offsets[k] < SliceEnd(row, k) <= |row.adjacency|
    ensures Slice(Appended(row, v, more), k) == Slice(row, k)
  {
    var after := Appended(row, v, more);
    assert SliceEnd(after, k) == SliceEnd(row, k);
    assert after.adjacency[row.offsets[k]..SliceEnd(row, k)] == row.adjacency[row.offsets[k]..SliceEnd(row, k)];
  }

  lemma AppendedSliced(row: Row, v: nat, more: seq<nat>)
    requires Sliced(row) && more != []
    ensures Sliced(Appended(row, v, more))
    ensures Slice(Appended(row, v, more), |row.id2vid|) == more
  {
    forall k | 0 <= k < |row.id2vid|
      ensures Appended(row, v, more).offsets[k] < SliceEnd(Appended(row, v, more), k) <= |Appended(row, v, more).adjacency|
    {
      SliceKept(row, v, more, k);
    }
  }

  lemma AppendedNumbered(row: Row, v: nat, more: seq<nat>)
    requires Numbered(row) && v !in row.id2vid
    ensures Numbered(Appended(row, v, more))
  {
    assert v !in row.vid2id;
  }

  lemma NewestNotBefore(vertices: seq<nat>, v: nat)
    requires StrictlyIncreasing(vertices + [v])
    ensures forall u :: u in vertices ==> u < v
  {
    forall i | 0 <= i < |vertices| ensures vertices[i] < v {
      assert (vertices + [v])[i] < (vertices + [v])[|vertices|];
    }
  }

  lemma AppendedSlices(row: Row, vertices: seq<nat>, v: nat, e: EdgesOf)
    requires Exact(row, vertices, e) && e.Neighbours(v) != []
    ensures var after := Appended(row, v, e.Neighbours(v));
            Sliced(after) && forall k :: 0 <= k < |after.id2vid| ==> Slice(after, k) == e.Neighbours(after.id2vid[k])
  {
    var more := e.Neighbours(v);
    AppendedSliced(row, v, more);
    forall k | 0 <= k < |row.id2vid| ensures Slice(Appended(row, v, more), k) == e.Neighbours(row.id2vid[k]) {
      SliceKept(row, v, more, k);
    }
  }

  lemma SnocIncreasing(ids: seq<nat>, v: nat)
    requires StrictlyIncreasing(ids) && forall u :: u in ids ==> u < v
    ensures StrictlyIncreasing(ids + [v])
  {
    forall i | 0 <= i < |ids| ensures (ids + [v])[i] < v {
      assert ids[i] in ids;
    }
  }

  /** One more vertex, larger than those before, keeps a row exact. */
  lemma AppendedExact(row: Row, vertices: seq<nat>, v: nat, e: EdgesOf)
    requires Exact(row, vertices, e) && StrictlyIncreasing(vertices + [v])
    ensures Exact(Appended(row, v, e.Neighbours(v)), vertices + [v], e)
  {
    if e.Neighbours(v) != [] {
      NewestNotBefore(vertices, v);
      assert forall u :: u in row.id2vid ==> u in vertices;
      SnocIncreasing(row.id2vid, v);
      AppendedNumbered(row, v, e.Neighbours(v));
      AppendedSlices(row, vertices, v, e);
    }
    AppendedListed(row, vertices, v, e);
  }

  lemma AppendedListed(row: Row, vertices: seq<nat>, v: nat, e: EdgesOf)
    requires forall u :: u in row.id2vid <==> u in vertices && e.Neighbours(u) != []
    ensures forall u :: u in Appended(row, v, e.Neighbours(v)).id2vid <==> u in vertices + [v] && e.Neighbours(u) != []
  {
  }

  // ---- the edges a row lists ----

  /** Whether a row lists one vertex as a neighbour of another. */
  ghost predicate Lists(row: Row, v: nat, w: nat)
    requires Sliced(row) && Numbered(row)
  {
    v in row.vid2id && w in Slice(row, row.vid2id[v])
  }

  lemma ListsIff(row: Row, vertices: seq<nat>, e: EdgesOf, v: nat, w: nat)
    requires Exact(row, vertices, e)
    ensures Lists(row, v, w) <==> v in vertices && w in e.Neighbours(v)
  {
    if v in vertices && w in e.Neighbours(v) {
      assert v in row.id2vid;
    }
    if Lists(row, v, w) {
      assert row.id2vid[row.vid2id[v]] in row.id2vid;
    }
  }

  function Fan(v: nat, ws: seq<nat>): set<(nat, nat)> {
    set w: nat | w in ws :: (v, w)
  }

  lemma {:induction false} FanSize(v: nat, ws: seq<nat>)
    requires StrictlyIncreasing(ws)
    ensures |Fan(v, ws)| == |ws|
  {
    if ws != [] {
      var init, last := ws[..|ws| - 1], ws[|ws| - 1];
      FanSize(v, init);
      assert ws == init + [last];
      assert Fan(v, ws) == Fan(v, init) + {(v, last)};
      assert last !in init;
    }
  }

  ghost function Pairs(vertices: seq<nat>, neighbours: nat -> seq<nat>): set<(nat, nat)> {
    set v: nat, w: nat | v in vertices && w in neighbours(v) :: (v, w)
  }

  lemma InPairs(vertices: seq<nat>, neighbours: nat -> seq<nat>, v: nat, w: nat)
    ensures (v, w) in Pairs(vertices, neighbours) <==> v in vertices && w in neighbours(v)
  {
  }

  lemma PairsSnoc(vertices: seq<nat>, neighbours: nat -> seq<nat>, v: nat)
    requires v !in vertices
    ensures |Pairs(vertices + [v], neighbours)| == |Pairs(vertices, neighbours)| + |Fan(v, neighbours(v))|
  {
    assert Pairs(vertices + [v], neighbours) == Pairs(vertices, neighbours) + Fan(v, neighbours(v));
    assert Pairs(vertices, neighbours) * Fan(v, neighbours(v)) == {};
  }

  /** All edges from some vertices. */
  ghost function Edges(vertices: seq<nat>, e: EdgesOf): set<(nat, nat)> {
    Pairs(vertices, e.Neighbours)
  }

  lemma EdgesSnoc(vertices: seq<nat>, v: nat, e: EdgesOf)
    requires StrictlyIncreasing(vertices + [v])
    ensures |Edges(vertices + [v], e)| == |Edges(vertices, e)| + |e.Neighbours(v)|
  {
    assert |Fan(v, e.Neighbours(v))| == |e.Neighbours(v)| by {
      NeighboursIncreasing(e, v);
      FanSize(v, e.Neighbours(v));
    }
    NewestNotBefore(vertices, v);
    PairsSnoc(vertices, e.Neighbours, v);
  }

  lemma {:induction false} FlippedSize(a: set<(nat, nat)>, b: set<(nat, nat)>)
    requires forall v: nat, w: nat :: (v, w) in a <==> (w, v) in b
    ensures |a| == |b|
  {
    if a == {} {
      forall x: (nat, nat) ensures x !in b {
        assert x == (x.0, x.1) && (x.1, x.0) !in a;
      }
    } else {
      var x :| x in a;
      assert (x.1, x.0) in b;
      FlippedSize(a - {x}, b - {(x.1, x.0)});
    }
  }

  // ---- building the rows ----

  /** A row as far as it has been built. */
  ghost predicate Built(row: Row, vertices: seq<nat>, e: EdgesOf) {
    Exact(row, vertices, e) && |row.adjacency| == |Edges(vertices, e)|
  }

  /** The row of some vertices, entered one after another. */
  ghost function RowOf(vertices: seq<nat>, e: EdgesOf): Row {
    if vertices == [] then EMPTY_ROW else
      var v := vertices[|vertices| - 1];
      Appended(RowOf(vertices[..|vertices| - 1], e), v, e.Neighbours(v))
  }

  lemma RowOfNext(vertices: seq<nat>, j: nat, e: EdgesOf)
    requires j < |vertices|
    ensures RowOf(vertices[..j + 1], e) == Appended(RowOf(vertices[..j], e), vertices[j], e.Neighbours(vertices[j]))
  {
    assert vertices[..j + 1][..j] == vertices[..j];
  }

  lemma {:induction false} RowIsBuilt(vertices: seq<nat>, e: EdgesOf)
    requires StrictlyIncreasing(vertices)
    ensures Built(RowOf(vertices, e), vertices, e)
  {
    if vertices != [] {
      var init, last := vertices[..|vertices| - 1], vertices[|vertices| - 1];
      assert init + [last] == vertices;
      RowIsBuilt(init, e);
      BuiltNext(RowOf(init, e), init, last, e);
    }
  }

  lemma BuiltNext(row: Row, vertices: seq<nat>, v: nat, e: EdgesOf)
    requires StrictlyIncreasing(vertices + [v]) && Built(row, vertices, e)
    ensures Built(Appended(row, v, e.Neighbours(v)), vertices + [v], e)
  {
    AppendedExact(row, vertices, v, e);
    EdgesSnoc(vertices, v, e);
  }

  /** Pushes the entities of an object list, and counts them by leaving out the literals. */
  method PushEntities(adjacency: seq<nat>, objlist: seq<nat>) returns (after: seq<nat>, len: nat)
    ensures after == adjacency + EntitiesOnly(objlist) && len == |EntitiesOnly(objlist)|
  {
    len := |objlist|;
    after := adjacency;
    for k := 0 to |objlist|
      invariant after == adjacency + EntitiesOnly(objlist[..k])
      invariant len == |objlist| - k + |EntitiesOnly(objlist[..k])|
    {
      EntitiesOnlySnoc(objlist, k);
      if objlist[k] >= LITERAL_FIRST_ID {
        len := len - 1;
      } else {
        after := after + [objlist[k]];
      }
    }
    assert objlist[..|objlist|] == objlist;
  }

  class CSR {
    var rows: seq<Row>

    constructor (preNum: nat)
      ensures rows == seq(preNum, i => EMPTY_ROW)
    {
      rows := seq(preNum, i => EMPTY_ROW);
    }

    /** Enters a vertex whose neighbours are already at the end of the adjacency list, unless it has none. */
    method EnterVertex(p: nat, v: nat, neighbours: seq<nat>, len: nat, offset: nat, index: nat, ghost before: Row)
      returns (nextOffset: nat, nextIndex: nat)
      requires p < |rows| && rows[p] == before.(adjacency := before.adjacency + neighbours) && len == |neighbours|
      requires offset == |before.adjacency| && index == |before.id2vid|
      modifies this
      ensures rows == old(rows)[p := Appended(before, v, neighbours)]
      ensures nextOffset == |Appended(before, v, neighbours).adjacency| && nextIndex == |Appended(before, v, neighbours).id2vid|
    {
      nextOffset, nextIndex := offset, index;
      if len > 0 {
        var row := rows[p];
        rows := rows[p := row.(id2vid := row.id2vid + [v], vid2id := row.vid2id[v := index], offsets := row.offsets + [offset])];
        nextIndex := index + 1;
        nextOffset := offset + len;
      } else {
        assert before.adjacency + neighbours == before.adjacency;
      }
    }

    method OutVertex(g: Store, p: nat, v: nat, offset: nat, index: nat, ghost before: Row) returns (nextOffset: nat, nextIndex: nat)
      requires p < |rows| && rows[p] == before && offset == |before.adjacency| && index == |before.id2vid|
      modifies this
      ensures var after := Appended(before, v, EdgesOf(g, p, true).Neighbours(v));
              rows == old(rows)[p := after] && nextOffset == |after.adjacency| && nextIndex == |after.id2vid|
    {
      var objlist := ObjIdsBySubPre(g, v, p);
      var adjacency, len := PushEntities(rows[p].adjacency, objlist);
      rows := rows[p := rows[p].(adjacency := adjacency)];
      nextOffset, nextIndex := EnterVertex(p, v, EntitiesOnly(objlist), len, offset, index, before);
    }

    method InVertex(g: Store, p: nat, v: nat, offset: nat, index: nat, ghost before: Row) returns (nextOffset: nat, nextIndex: nat)
      requires p < |rows| && rows[p] == before && offset == |before.adjacency| && index == |before.id2vid|
      modifies this
      ensures var after := Appended(before, v, EdgesOf(g, p, false).Neighbours(v));
              rows == old(rows)[p := after] && nextOffset == |after.adjacency| && nextIndex == |after.id2vid|
    {
      if v >= LITERAL_FIRST_ID {
        return offset, index;
      }
      var sublist := SubIdsByObjPre(g, v, p);
      rows := rows[p := rows[p].(adjacency := rows[p].adjacency + sublist)];
      nextOffset, nextIndex := EnterVertex(p, v, sublist, |sublist|, offset, index, before);
    }

    /** Walks the subjects of a predicate and enters each with its entity objects. */
    method EnterSubjects(g: Store, p: nat, sublist: seq<nat>)
      requires p < |rows| && rows[p] == EMPTY_ROW && StrictlyIncreasing(sublist)
      modifies this
      ensures |rows| == |old(rows)| && rows == old(rows)[p := rows[p]] && Built(rows[p], sublist, EdgesOf(g, p, true))
    {
      var offset, index := 0, 0;
      ghost var e := EdgesOf(g, p, true);
      for j := 0 to |sublist|
        invariant rows == old(rows)[p := RowOf(sublist[..j], e)]
        invariant offset == |RowOf(sublist[..j], e).adjacency| && index == |RowOf(sublist[..j], e).id2vid|
      {
        RowOfNext(sublist, j, e);
        offset, index := OutVertex(g, p, sublist[j], offset, index, RowOf(sublist[..j], e));
      }
      assert sublist[..|sublist|] == sublist;
      RowIsBuilt(sublist, e);
    }

    /** Walks the objects of a predicate and enters each entity with its subjects. */
    method EnterObjects(g: Store, p: nat, objlist: seq<nat>)
      requires p < |rows| && rows[p] == EMPTY_ROW && StrictlyIncreasing(objlist)
      modifies this
      ensures |rows| == |old(rows)| && rows == old(rows)[p := rows[p]] && Built(rows[p], objlist, EdgesOf(g, p, false))
    {
      var offset, index := 0, 0;
      ghost var e := EdgesOf(g, p, false);
      for j := 0 to |objlist|
        invariant rows == old(rows)[p := RowOf(objlist[..j], e)]
        invariant offset == |RowOf(objlist[..j], e).adjacency| && index == |RowOf(objlist[..j], e).id2vid|
      {
        RowOfNext(objlist, j, e);
        offset, index := InVertex(g, p, objlist[j], offset, index, RowOf(objlist[..j], e));
      }
      assert objlist[..|objlist|] == objlist;
      RowIsBuilt(objlist, e);
    }

    /** Fills the row of a predicate in the direction of its edges: subjects with their entity objects. */
    method BuildOut(g: Store, p: nat)
      requires p < |rows| && rows[p] == EMPTY_ROW
      modifies this
      ensures |rows| == |old(rows)| && forall i :: 0 <= i < |rows| && i != p ==> rows[i] == old(rows)[i]
      ensures Built(rows[p], SubIdsByPre(g, p), EdgesOf(g, p, true))
    {
      EnterSubjects(g, p, SubIdsByPre(g, p));
    }

    /** Fills the row of a predicate against the direction of its edges: entity objects with their subjects. */
    method BuildIn(g: Store, p: nat)
      requires p < |rows| && rows[p] == EMPTY_ROW
      modifies this
      ensures |rows| == |old(rows)| && forall i :: 0 <= i < |rows| && i != p ==> rows[i] == old(rows)[i]
      ensures Built(rows[p], ObjIdsByPre(g, p), EdgesOf(g, p, false))
    {
      EnterObjects(g, p, ObjIdsByPre(g, p));
    }

    method BuildAllOut(g: Store)
      requires forall p :: 0 <= p < |rows| ==> rows[p] == EMPTY_ROW
      modifies this
      ensures |rows| == |old(rows)| && forall p :: 0 <= p < |rows| ==> Built(rows[p], SubIdsByPre(g, p), EdgesOf(g, p, true))
    {
      for i := 0 to |rows|
        invariant |rows| == |old(rows)| && forall p :: i <= p < |rows| ==> rows[p] == EMPTY_ROW
        invariant forall p :: 0 <= p < i ==> Built(rows[p], SubIdsByPre(g, p), EdgesOf(g, p, true))
      {
        BuildOut(g, i);
      }
    }

    method BuildAllIn(g: Store)
      requires forall p :: 0 <= p < |rows| ==> rows[p] == EMPTY_ROW
      modifies this
      ensures |rows| == |old(rows)| && forall p :: 0 <= p < |rows| ==> Built(rows[p], ObjIdsByPre(g, p), EdgesOf(g, p, false))
    {
      for i := 0 to |rows|
        invariant |rows| == |old(rows)| && forall p :: i <= p < |rows| ==> rows[p] == EMPTY_ROW
        invariant forall p :: 0 <= p < i ==> Built(rows[p], ObjIdsByPre(g, p), EdgesOf(g, p, false))
      {
        BuildIn(g, i);
      }
    }
  }

  /**
   A finished row agrees with the store: it lists exactly the triples of its predicate between entities,
   and its adjacency list is as long as there are such triples.
   */
  lemma RowMatchesStore(e: EdgesOf, row: Row, s: nat, o: nat)
    requires Built(row, e.Vertices(), e)
    ensures var edge := Triple(s, e.p, o) in e.g && o < LITERAL_FIRST_ID;
            && (Lists(row, if e.outgoing then s else o, if e.outgoing then o else s) <==> edge)
            && ((if e.outgoing then (s, o) else (o, s)) in Edges(e.Vertices(), e) <==> edge)
  {
    var v, w := if e.outgoing then s else o, if e.outgoing then o else s;
    ListsIff(row, e.Vertices(), e, v, w);
    InPairs(e.Vertices(), e.Neighbours, v, w);
  }

  /** The two rows of a predicate are transposes of each other, and their adjacency lists are equally long. */
  lemma RowsTransposed(g: Store, p: nat, outRow: Row, inRow: Row)
    requires Built(outRow, SubIdsByPre(g, p), EdgesOf(g, p, true)) && Built(inRow, ObjIdsByPre(g, p), EdgesOf(g, p, false))
    ensures forall s: nat, o: nat :: Lists(outRow, s, o) <==> Lists(inRow, o, s)
    ensures |outRow.adjacency| == |inRow.adjacency|
  {
    var along, against := EdgesOf(g, p, true), EdgesOf(g, p, false);
    forall s: nat, o: nat
      ensures Lists(outRow, s, o) <==> Lists(inRow, o, s)
      ensures (s, o) in Edges(along.Vertices(), along) <==> (o, s) in Edges(against.Vertices(), against)
    {
      RowMatchesStore(along, outRow, s, o);
      RowMatchesStore(against, inRow, s, o);
    }
    FlippedSize(Edges(along.Vertices(), along), Edges(against.Vertices(), against));
  }

  /** Loading builds both directions for every predicate; they are transposes of each other throughout. */
  method LoadCsr(g: Store, preNum: nat) returns (csr0: CSR, csr1: CSR)
    ensures fresh(csr0) && fresh(csr1) && |csr0.rows| == |csr1.rows| == preNum
    ensures forall p :: 0 <= p < preNum ==> Built(csr0.rows[p], SubIdsByPre(g, p), EdgesOf(g, p, true))
    ensures forall p :: 0 <= p < preNum ==> Built(csr1.rows[p], ObjIdsByPre(g, p), EdgesOf(g, p, false))
    ensures forall p :: 0 <= p < preNum ==> |csr0.rows[p].adjacency| == |csr1.rows[p].adjacency|
  {
    csr0 := new CSR(preNum);
    csr1 := new CSR(preNum);
    csr0.BuildAllOut(g);
    csr1.BuildAllIn(g);
    forall p | 0 <= p < preNum ensures |csr0.rows[p].adjacency| == |csr1.rows[p].adjacency| {
      RowsTransposed(g, p, csr0.rows[p], csr1.rows[p]);
    }
  }
}
