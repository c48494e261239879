/**
 What joining a node makes of a table, counted: how often each row occurs, in terms of the old table, the
 store and the candidate cache. It also covers nodes that are joined without being stored.
 */
module JoinCounts {
  import opened Rdf
  import opened TableOperator
  import opened Semantics
  import opened StepSpec

  /** The ids of the store. */
  function Mentioned(g: Store): set<nat> {
    (set t | t in g :: t.s) + (set t | t in g :: t.p) + (set t | t in g :: t.o)
  }

  // ---- the ids a row allows ----

  /** One end of an edge: what is given agrees with the constant or the row, what is looked up is the new id. */
  predicate EndAgrees(given: bool, found: bool, id: nat, isConstant: bool, idPos: PositionValue, row: Row, x: nat, value: nat)
    requires given && !isConstant ==> id in idPos && idPos[id] < |row|
  {
    (given ==> value == if isConstant then id else row[idPos[id]]) && (found ==> value == x)
  }

  ghost predicate TripleAgrees(e: Edge, idPos: PositionValue, row: Row, x: nat, t: Triple)
    requires Readable(e, idPos, row)
  {
    var m := e.info.joinMethod;
    assert m.GivesS() && !e.constant.sConstant ==> e.info.s in e.Reads();
    assert m.GivesP() && !e.constant.pConstant ==> e.info.p in e.Reads();
    assert m.GivesO() && !e.constant.oConstant ==> e.info.o in e.Reads();
    && EndAgrees(m.GivesS(), m.FindsS(), e.info.s, e.constant.sConstant, idPos, row, x, t.s)
    && EndAgrees(m.GivesP(), m.FindsP(), e.info.p, e.constant.pConstant, idPos, row, x, t.p)
    && EndAgrees(m.GivesO(), m.FindsO(), e.info.o, e.constant.oConstant, idPos, row, x, t.o)
  }

  /** A stored triple has what the edge reads from the row, and the id where the edge looks one up. */
  ghost predicate EdgeAllows(g: Store, e: Edge, idPos: PositionValue, row: Row, x: nat)
    requires Readable(e, idPos, row)
  {
    exists t :: t in g && TripleAgrees(e, idPos, row, x, t)
  }

  /** The ids that all edges of a node and its candidate cache allow beside a row. */
  ghost function AllowedIds(env: Env, feed: FeedOneNode, idPos: PositionValue, row: Row): set<nat>
    requires AllReadable(feed.edges, idPos, row)
  {
    if feed.edges == [] then {} else
      set x | x in Mentioned(env.g) && (forall e :: e in feed.edges ==> EdgeAllows(env.g, e, idPos, row, x))
              && (feed.nodeToJoin in env.caches ==> x in env.caches[feed.nodeToJoin])
  }

  lemma EdgeAllowsIs(g: Store, e: Edge, idPos: PositionValue, row: Row, x: nat)
    requires e.info.joinMethod.OneNode() && Readable(e, idPos, row)
    ensures x in EdgeList(g, e, idPos, row) <==> EdgeAllows(g, e, idPos, row, x)
    ensures EdgeAllows(g, e, idPos, row, x) ==> x in Mentioned(g)
  {
    var m := e.info.joinMethod;
    assert m.GivesS() && !e.constant.sConstant ==> e.info.s in e.Reads();
    assert m.GivesP() && !e.constant.pConstant ==> e.info.p in e.Reads();
    assert m.GivesO() && !e.constant.oConstant ==> e.info.o in e.Reads();
    var s, p, o := Given(m.GivesS(), e.info.s, e.constant.sConstant, idPos, row), Given(m.GivesP(), e.info.p, e.constant.pConstant, idPos, row),
                   Given(m.GivesO(), e.info.o, e.constant.oConstant, idPos, row);
    LookupMeaning(g, m, s, p, o, x);
    forall t ensures LookupFits(m, s, p, o, x, t) <==> TripleAgrees(e, idPos, row, x, t) {
      FitsIsAgrees(e, idPos, row, s, p, o, x, t);
    }
    AllowedIsMentioned(g, e, idPos, row, x);
  }

  lemma FitsIsAgrees(e: Edge, idPos: PositionValue, row: Row, s: nat, p: nat, o: nat, x: nat, t: Triple)
    requires Readable(e, idPos, row)
    requires e.info.joinMethod.GivesS() ==> s == if e.constant.sConstant then e.info.s else (assert e.info.s in e.Reads(); row[idPos[e.info.s]])
    requires e.info.joinMethod.GivesP() ==> p == if e.constant.pConstant then e.info.p else (assert e.info.p in e.Reads(); row[idPos[e.info.p]])
    requires e.info.joinMethod.GivesO() ==> o == if e.constant.oConstant then e.info.o else (assert e.info.o in e.Reads(); row[idPos[e.info.o]])
    ensures LookupFits(e.info.joinMethod, s, p, o, x, t) <==> TripleAgrees(e, idPos, row, x, t)
  {
  }

  lemma AllowedIsMentioned(g: Store, e: Edge, idPos: PositionValue, row: Row, x: nat)
    requires e.info.joinMethod.OneNode() && Readable(e, idPos, row)
    ensures EdgeAllows(g, e, idPos, row, x) ==> x in Mentioned(g)
  {
    if EdgeAllows(g, e, idPos, row, x) {
      var t :| t in g && TripleAgrees(e, idPos, row, x, t);
      assert x == t.s || x == t.p || x == t.o;
    }
  }

  lemma AllowedIsCandidate(env: Env, feed: FeedOneNode, idPos: PositionValue, row: Row, x: nat)
    requires AllReadable(feed.edges, idPos, row)
    ensures x in Candidates(env, feed.edges, feed.nodeToJoin, idPos, row) <==> x in AllowedIds(env, feed, idPos, row)
  {
    InCandidates(env, feed.edges, feed.nodeToJoin, idPos, row, x);
    forall e | e in feed.edges
      ensures x in EdgeList(env.g, e, idPos, row) <==> EdgeAllows(env.g, e, idPos, row, x)
      ensures EdgeAllows(env.g, e, idPos, row, x) ==> x in Mentioned(env.g)
    {
      EdgeAllowsIs(env.g, e, idPos, row, x);
    }
    if feed.edges != [] {
      assert feed.edges[0] in feed.edges;
    }
  }

  lemma {:induction false} IncreasingSize(ids: seq<nat>, members: set<nat>)
    requires StrictlyIncreasing(ids) && forall x :: x in ids <==> x in members
    ensures |ids| == |members|
    decreases |ids|
  {
    if ids == [] {
      assert members == {};
    } else {
      var init, last := ids[..|ids| - 1], ids[|ids| - 1];
      assert ids == init + [last];
      assert last !in init;
      IncreasingSize(init, members - {last});
    }
  }

  lemma CandidatesAreAllowed(env: Env, feed: FeedOneNode, idPos: PositionValue, row: Row)
    requires AllReadable(feed.edges, idPos, row)
    ensures var ids, allowed := Candidates(env, feed.edges, feed.nodeToJoin, idPos, row), AllowedIds(env, feed, idPos, row);
            StrictlyIncreasing(ids) && |ids| == |allowed| && forall x :: x in ids <==> x in allowed
  {
    var ids := Candidates(env, feed.edges, feed.nodeToJoin, idPos, row);
    forall x ensures x in ids <==> x in AllowedIds(env, feed, idPos, row) {
      AllowedIsCandidate(env, feed, idPos, row, x);
    }
    InCandidates(env, feed.edges, feed.nodeToJoin, idPos, row, 0);
    IncreasingSize(ids, AllowedIds(env, feed, idPos, row));
  }

  // ---- how often a row occurs ----

  /** How often one old row gives a new one: with a stored node once for each allowed id, else the row itself for every allowed id, or once with distinct. */
  ghost function TimesGiven(env: Env, feed: FeedOneNode, distinct: bool, idPos: PositionValue, row: Row, r: Row): nat
    requires AllReadable(feed.edges, idPos, row)
  {
    var allowed := AllowedIds(env, feed, idPos, row);
    if feed.addedIntoTable then (if |r| == |row| + 1 && r[..|row|] == row && r[|row|] in allowed then 1 else 0)
    else if r != row then 0
    else if distinct then (if allowed == {} then 0 else 1)
    else |allowed|
  }

  /** The row a new row comes from. */
  function Source(feed: FeedOneNode, r: Row): Row {
    if feed.addedIntoTable && r != [] then r[..|r| - 1] else r
  }

  ghost predicate Occurs(env: Env, feed: FeedOneNode, distinct: bool, idPos: PositionValue, rows: seq<Row>, after: seq<Row>, r: Row)
    requires forall row :: row in rows ==> AllReadable(feed.edges, idPos, row)
  {
    var row := Source(feed, r);
    multiset(after)[r] == if row in rows then multiset(rows)[row] * TimesGiven(env, feed, distinct, idPos, row, r) else 0
  }

  /** Every new row occurs as often as the row it comes from did, times what that row gives of it. */
  ghost predicate Multiplied(env: Env, feed: FeedOneNode, distinct: bool, idPos: PositionValue, rows: seq<Row>, after: seq<Row>) {
    && (forall row :: row in rows ==> AllReadable(feed.edges, idPos, row))
    && (forall r: Row :: Occurs(env, feed, distinct, idPos, rows, after, r))
  }

  lemma {:induction false} CountOfIncreasing(row: Row, ids: seq<nat>, r: Row)
    requires StrictlyIncreasing(ids)
    ensures multiset(Extended(row, ids))[r] == if |r| == |row| + 1 && r[..|row|] == row && r[|row|] in ids then 1 else 0
    decreases |ids|
  {
    if ids != [] {
      var init, last := ids[..|ids| - 1], ids[|ids| - 1];
      assert ids == init + [last] && last !in init;
      CountOfIncreasing(row, init, r);
      assert Extended(row, ids) == Extended(row, init) + [row + [last]];
      assert r == row + [last] <==> |r| == |row| + 1 && r[..|row|] == row && r[|row|] == last;
    }
  }

  lemma {:induction false} CountOfCopies(row: Row, n: nat, r: Row)
    ensures multiset(Copies(row, n))[r] == if r == row then n else 0
  {
    if n > 0 {
      CountOfCopies(row, n - 1, r);
      assert Copies(row, n) == Copies(row, n - 1) + [row];
    }
  }

  lemma RowGives(env: Env, feed: FeedOneNode, distinct: bool, idPos: PositionValue, row: Row, r: Row)
    requires AllReadable(feed.edges, idPos, row)
    ensures multiset(JoinNodeRow(env, feed, distinct, idPos, row))[r] == TimesGiven(env, feed, distinct, idPos, row, r)
  {
    var ids := Candidates(env, feed.edges, feed.nodeToJoin, idPos, row);
    CandidatesAreAllowed(env, feed, idPos, row);
    CountOfIncreasing(row, ids, r);
    CountOfCopies(row, |ids|, r);
    assert ids == [] <==> AllowedIds(env, feed, idPos, row) == {};
  }

  lemma GivenByOther(env: Env, feed: FeedOneNode, distinct: bool, idPos: PositionValue, row: Row, r: Row)
    requires AllReadable(feed.edges, idPos, row) && row != Source(feed, r)
    ensures TimesGiven(env, feed, distinct, idPos, row, r) == 0
  {
  }

  lemma HeadAndTail(head: Row, tail: seq<Row>, row: Row, n: nat, a: nat, b: nat)
    requires a == (if head == row then n else 0) && b == multiset(tail)[row] * n
    ensures a + b == multiset([head] + tail)[row] * n
  {
    var k := multiset(tail)[row];
    assert multiset([head] + tail)[row] == k + if head == row then 1 else 0;
    assert (k + 1) * n == k * n + n;
  }

  lemma FirstGives(env: Env, step: StepOperation, idPos: PositionValue, rows: seq<Row>, r: Row) returns (given: nat)
    requires step.JoinNode? && AllStepReadable(step, idPos, rows) && rows != []
    ensures AllReadable(step.node.edges, idPos, rows[0]) && AllStepReadable(step, idPos, rows[1..])
    ensures given == TimesGiven(env, step.node, step.distinct, idPos, rows[0], r)
    ensures multiset(StepRows(env, step, idPos, rows))[r] == given + multiset(StepRows(env, step, idPos, rows[1..]))[r]
  {
    assert rows[0] in rows && StepReadable(step, idPos, rows[0]);
    given := TimesGiven(env, step.node, step.distinct, idPos, rows[0], r);
    RowGives(env, step.node, step.distinct, idPos, rows[0], r);
  }

  /** The first row gives what it should: the times of the source, if it is the source. */
  lemma GivenIs(env: Env, feed: FeedOneNode, distinct: bool, idPos: PositionValue, first: Row, r: Row, source: Row, n: nat)
    requires AllReadable(feed.edges, idPos, first) && source == Source(feed, r)
    requires first == source ==> n == TimesGiven(env, feed, distinct, idPos, first, r)
    ensures TimesGiven(env, feed, distinct, idPos, first, r) == if first == source then n else 0
  {
    if first != source {
      GivenByOther(env, feed, distinct, idPos, first, r);
    }
  }

  ghost predicate TimesOfSource(env: Env, feed: FeedOneNode, distinct: bool, idPos: PositionValue, rows: seq<Row>, r: Row, source: Row, n: nat) {
    source in rows ==> AllReadable(feed.edges, idPos, source) && n == TimesGiven(env, feed, distinct, idPos, source, r)
  }

  lemma {:induction false} RowsGive(env: Env, step: StepOperation, idPos: PositionValue, rows: seq<Row>, r: Row, source: Row, n: nat)
    requires step.JoinNode? && AllStepReadable(step, idPos, rows) && source == Source(step.node, r)
    requires TimesOfSource(env, step.node, step.distinct, idPos, rows, r, source, n)
    ensures multiset(StepRows(env, step, idPos, rows))[r] == multiset(rows)[source] * n
    decreases |rows|
  {
    if rows != [] {
      var head, tail := rows[0], rows[1..];
      assert rows == [head] + tail;
      var given := FirstGives(env, step, idPos, rows, r);
      var later := multiset(StepRows(env, step, idPos, tail))[r];
      RowsGive(env, step, idPos, tail, r, source, n);
      GivenIs(env, step.node, step.distinct, idPos, head, r, source, n);
      HeadAndTail(head, tail, source, n, given, later);
    }
  }

  /** The rows of a step that joins a node, counted. */
  lemma StepMultiplies(env: Env, step: StepOperation, idPos: PositionValue, rows: seq<Row>)
    requires step.JoinNode? && AllStepReadable(step, idPos, rows)
    ensures Multiplied(env, step.node, step.distinct, idPos, rows, StepRows(env, step, idPos, rows))
  {
    forall row | row in rows ensures AllReadable(step.node.edges, idPos, row) {
      assert StepReadable(step, idPos, row);
    }
    forall r: Row ensures Occurs(env, step.node, step.distinct, idPos, rows, StepRows(env, step, idPos, rows), r) {
      var row := Source(step.node, r);
      RowsGive(env, step, idPos, rows, r, row, if row in rows then TimesGiven(env, step.node, step.distinct, idPos, row, r) else 0);
    }
  }

  /** The rows without their last column. */
  function Dropped(rows: seq<Row>): seq<Row> {
    seq(|rows|, i requires 0 <= i < |rows| => if rows[i] == [] then [] else rows[i][..|rows[i]| - 1])
  }

  lemma DroppedRow(env: Env, feed: FeedOneNode, idPos: PositionValue, row: Row)
    requires AllReadable(feed.edges, idPos, row)
    ensures JoinNodeRow(env, feed.(addedIntoTable := false), false, idPos, row)
         == Dropped(JoinNodeRow(env, feed.(addedIntoTable := true), false, idPos, row))
  {
    var ids := Candidates(env, feed.edges, feed.nodeToJoin, idPos, row);
    forall i | 0 <= i < |ids| ensures Copies(row, |ids|)[i] == Dropped(Extended(row, ids))[i] {
      assert Extended(row, ids)[i] == row + [ids[i]];
    }
  }

  /** Without distinct, not storing the node is storing it and dropping its column. */
  lemma {:induction false} UnstoredIsDropped(env: Env, feed: FeedOneNode, remainOld: bool, idPos: PositionValue, rows: seq<Row>)
    requires forall row :: row in rows ==> AllReadable(feed.edges, idPos, row)
    ensures var unstored, stored := JoinNode(feed.(addedIntoTable := false), false, remainOld), JoinNode(feed.(addedIntoTable := true), false, remainOld);
            && AllStepReadable(unstored, idPos, rows) && AllStepReadable(stored, idPos, rows)
            && StepRows(env, unstored, idPos, rows) == Dropped(StepRows(env, stored, idPos, rows))
    decreases |rows|
  {
    if rows != [] {
      assert rows[0] in rows;
      UnstoredIsDropped(env, feed, remainOld, idPos, rows[1..]);
      DroppedRow(env, feed, idPos, rows[0]);
      DroppedAppend(JoinNodeRow(env, feed.(addedIntoTable := true), false, idPos, rows[0]),
                    StepRows(env, JoinNode(feed.(addedIntoTable := true), false, remainOld), idPos, rows[1..]));
    }
  }

  lemma DroppedAppend(a: seq<Row>, b: seq<Row>)
    ensures Dropped(a + b) == Dropped(a) + Dropped(b)
  {
  }
}
