/**
 The older join as a whole: once its walk has joined the core of a query, the records written out are the
 answers of the whole query, core and satellites, at the places of the selected variables.
 */
module OldJoinAnswer {
  import opened Rdf
  import opened TableOperator
  import opened Semantics
  import opened ExactJoins
  import opened BasicGraphPattern
  import opened QueryAnswer
  import PlanMeaning
  import opened OldJoinOutput

  // ---- core and satellites ----

  /** A pattern between a core variable and a satellite. */
  predicate ToSatellite(t: TriplePattern, core: set<nat>, satellites: set<nat>) {
    t.Joins() && ((t.s in core && t.o in satellites) || (t.o in core && t.s in satellites))
  }

  /** Every pattern lies in the core, is about a core variable and a constant, or leads from the core to a satellite. */
  ghost predicate CoreAndSatellites(bgp: Patterns, core: set<nat>, satellites: set<nat>) {
    && core + satellites == SoVars(bgp) && core !! satellites
    && (forall t :: t in bgp && t.Joins() ==> t.Within(core) || ToSatellite(t, core, satellites))
    && (forall t, v :: t in bgp && !t.Joins() && t.About(v) ==> v in core)
  }

  function CoreEnd(t: TriplePattern, core: set<nat>): nat {
    if t.s in core then t.s else t.o
  }

  function OuterEnd(t: TriplePattern, core: set<nat>): nat {
    if t.s in core then t.o else t.s
  }

  /** The edge over which a satellite's ids are found. */
  ghost predicate EdgeOf(t: TriplePattern, core: set<nat>, idPos: PositionValue, place: map<nat, nat>, e: SatelliteEdge) {
    && CoreEnd(t, core) in idPos && OuterEnd(t, core) in place
    && e == SatelliteEdge(idPos[CoreEnd(t, core)], t.s in core, Fixed(t.p), place[OuterEnd(t, core)])
  }

  /** Different selected variables have different places in the record. */
  predicate Placed(place: map<nat, nat>) {
    forall a, b :: a in place && b in place && place[a] == place[b] ==> a == b
  }

  /** The selected variables' columns go to their places. */
  ghost predicate ColumnsPlaced(l: Layout, posId: PositionValue, place: map<nat, nat>) {
    && |l.targets| == |posId|
    && forall i :: 0 <= i < |l.targets| ==> i in posId && (if posId[i] in place then l.targets[i] == place[posId[i]] else l.targets[i] < 0)
  }

  /** There is one edge for each pattern that leads to a satellite. */
  ghost predicate EdgesPlaced(l: Layout, bgp: Patterns, core: set<nat>, satellites: set<nat>, idPos: PositionValue, place: map<nat, nat>) {
    && (forall t :: t in bgp && ToSatellite(t, core, satellites) ==> exists e :: e in l.edges && EdgeOf(t, core, idPos, place, e))
    && (forall e :: e in l.edges ==> exists t :: t in bgp && ToSatellite(t, core, satellites) && EdgeOf(t, core, idPos, place, e))
  }

  /** The layout of the records: selected core variables and all satellites have places, and they are the variables' own. */
  ghost predicate WritesOut(l: Layout, bgp: Patterns, core: set<nat>, satellites: set<nat>, idPos: PositionValue, posId: PositionValue,
                            place: map<nat, nat>)
  {
    && l.Valid() && Placed(place) && satellites <= place.Keys <= core + satellites && idPos.Keys == core
    && MutuallyInverse(idPos, posId, |posId|) && ColumnsPlaced(l, posId, place) && EdgesPlaced(l, bgp, core, satellites, idPos, place)
  }

  // ---- the records of a row ----

  /** The columns' places are different from each other and from the satellites'. */
  ghost predicate Apart(l: Layout) {
    && (forall i, j :: 0 <= i < j < |l.targets| && l.targets[i] >= 0 ==> l.targets[i] != l.targets[j])
    && (forall i, e :: 0 <= i < |l.targets| && e in l.edges ==> l.targets[i] != e.vpos)
  }

  lemma PlacesApart(l: Layout, bgp: Patterns, core: set<nat>, satellites: set<nat>, idPos: PositionValue, posId: PositionValue, place: map<nat, nat>)
    requires WritesOut(l, bgp, core, satellites, idPos, posId, place) && core !! satellites
    ensures Apart(l)
  {
    forall i, j | 0 <= i < j < |l.targets| && l.targets[i] >= 0 ensures l.targets[i] != l.targets[j] {
      assert idPos[posId[i]] == i && idPos[posId[j]] == j;
    }
    forall i, e | 0 <= i < |l.targets| && e in l.edges ensures l.targets[i] != e.vpos {
      var t :| t in bgp && ToSatellite(t, core, satellites) && EdgeOf(t, core, idPos, place, e);
      assert posId[i] in core && OuterEnd(t, core) in satellites;
    }
  }

  /** A written column stands at its place. */
  lemma {:induction false} WrittenAt(record: seq<nat>, row: Row, l: Layout, n: nat, i: nat)
    requires n <= |row| == |l.targets| && |record| == l.recordLen && l.Valid() && Apart(l)
    requires i < n && l.targets[i] >= 0
    ensures Written(record, row, l.targets, n)[l.targets[i]] == row[i]
    decreases n
  {
    if i < n - 1 {
      WrittenAt(record, row, l, n - 1, i);
    }
  }

  ghost predicate ColumnsIn(l: Layout, row: Row, x: seq<nat>)
    requires l.Valid() && |row| == |l.targets| && |x| == l.recordLen
  {
    forall i :: 0 <= i < |l.targets| && l.targets[i] >= 0 ==> x[l.targets[i]] == row[i]
  }

  ghost predicate SatellitesIn(g: Store, l: Layout, row: Row, x: seq<nat>)
    requires l.Valid() && |row| == |l.targets| && |x| == l.recordLen
  {
    forall e :: e in l.edges ==> x[e.vpos] in SatelliteList(g, e, row)
  }

  function Blank(l: Layout): seq<nat> {
    seq(l.recordLen, k => 0)
  }

  lemma InSatellites(g: Store, l: Layout, row: Row, x: seq<nat>)
    requires l.Valid() && |row| == |l.targets| && |x| == l.recordLen
    ensures PositionsIn(SatellitesOf(g, l, row), l.recordLen)
    ensures (forall s :: s in SatellitesOf(g, l, row) ==> x[s.vpos] in s.idlist) <==> SatellitesIn(g, l, row, x)
    ensures forall k :: k in Positions(SatellitesOf(g, l, row)) <==> exists e :: e in l.edges && e.vpos == k
  {
    var satellites := SatellitesOf(g, l, row);
    SatellitesFit(g, l, row);
    forall s | s in satellites ensures exists e :: e in l.edges && s == Satellite(e.vpos, SatelliteList(g, e, row)) {
      var i :| 0 <= i < |satellites| && satellites[i] == s;
      assert l.edges[i] in l.edges;
    }
    forall e | e in l.edges ensures Satellite(e.vpos, SatelliteList(g, e, row)) in satellites {
      var i :| 0 <= i < |l.edges| && l.edges[i] == e;
      assert satellites[i] in satellites;
    }
  }

  lemma RowAgrees(g: Store, l: Layout, row: Row, x: seq<nat>)
    requires l.Valid() && Apart(l) && |row| == |l.targets| && |x| == l.recordLen
    ensures PositionsIn(SatellitesOf(g, l, row), l.recordLen)
    ensures AgreeOutside(x, Written(Blank(l), row, l.targets, |row|), Positions(SatellitesOf(g, l, row))) <==> ColumnsIn(l, row, x)
  {
    var base := Written(Blank(l), row, l.targets, |row|);
    var positions := Positions(SatellitesOf(g, l, row));
    InSatellites(g, l, row, x);
    forall i | 0 <= i < |l.targets| && l.targets[i] >= 0 ensures base[l.targets[i]] == row[i] && l.targets[i] !in positions {
      WrittenAt(Blank(l), row, l, |row|, i);
    }
    if ColumnsIn(l, row, x) {
      forall k | 0 <= k < |x| && k !in positions ensures x[k] == base[k] {
        assert k in l.targets;
        var i :| 0 <= i < |l.targets| && l.targets[i] == k;
      }
    }
  }

  /** A record is written for a row exactly if it has the row's columns and, for each satellite, one of its ids. */
  lemma RowRecord(g: Store, l: Layout, row: Row, x: seq<nat>)
    requires l.Valid() && Apart(l) && |row| == |l.targets|
    ensures x in RowRecords(g, l, row) <==> |x| == l.recordLen && ColumnsIn(l, row, x) && SatellitesIn(g, l, row, x)
  {
    RowRecordsMeaning(g, l, row, x);
    if |x| == l.recordLen {
      RowAgrees(g, l, row, x);
      InSatellites(g, l, row, x);
    }
  }

  ghost predicate RowsFit(l: Layout, rows: seq<Row>) {
    forall row :: row in rows ==> |row| == |l.targets|
  }

  lemma {:induction false} InTableRecords(g: Store, l: Layout, rows: seq<Row>, x: seq<nat>)
    requires l.Valid() && RowsFit(l, rows)
    ensures x in TableRecords(g, l, rows) <==> exists row :: row in rows && x in RowRecords(g, l, row)
    decreases |rows|
  {
    if rows != [] {
      var init, last := rows[..|rows| - 1], rows[|rows| - 1];
      assert rows == init + [last];
      InTableRecords(g, l, init, x);
    }
  }

  // ---- answers of the whole query ----

  ghost predicate Stored(g: Store, t: TriplePattern, mu: Assignment) {
    Triple(ValueOf(t.s, t.sConst, mu), ValueOf(t.p, t.pConst, mu), ValueOf(t.o, t.oConst, mu)) in g
  }

  ghost predicate SatellitesStored(g: Store, bgp: Patterns, core: set<nat>, satellites: set<nat>, mu: Assignment) {
    forall t :: t in bgp && ToSatellite(t, core, satellites) ==> Stored(g, t, mu)
  }

  /** What the older join works on: a query with a core and satellites, and candidates for core variables only. */
  ghost predicate OldQuery(env: Env, bgp: Patterns, feeds: seq<FeedOneNode>, given: map<nat, seq<nat>>, core: set<nat>, satellites: set<nat>) {
    && EnvFits(env, bgp) && CachesFit(env, bgp, feeds, given) && CoreAndSatellites(bgp, core, satellites)
    && forall v :: v in satellites ==> v !in env.caches
  }

  lemma CoreConstraints(bgp: Patterns, core: set<nat>, all: set<nat>)
    requires core <= all
    ensures InsideConstraints(bgp, core) <= InsideConstraints(bgp, all)
    ensures forall c :: c in InsideConstraints(bgp, core) ==> c.Variables() <= core + Predicates(bgp)
  {
  }

  /** Predicates that are variables; there are none in the queries the model speaks about. */
  function Predicates(bgp: Patterns): set<nat> {
    set t | t in bgp && !t.pConst :: t.p
  }

  lemma AnswerToParts(env: Env, bgp: Patterns, core: set<nat>, satellites: set<nat>, mu: Assignment)
    requires QueryOk(bgp) && CoreAndSatellites(bgp, core, satellites) && mu.Keys == SoVars(bgp)
    requires Satisfies(env, InsideConstraints(bgp, SoVars(bgp)), mu)
    ensures Satisfies(env, InsideConstraints(bgp, core), Restricted(mu, core)) && SatellitesStored(env.g, bgp, core, satellites, mu)
  {
    CoreConstraints(bgp, core, SoVars(bgp));
    assert Predicates(bgp) == {};
    PlanMeaning.RestrictedSatisfies(env, InsideConstraints(bgp, core), core, mu);
    forall t | t in bgp && ToSatellite(t, core, satellites) ensures Stored(env.g, t, mu) {
      assert PatternConstraint(t) in InsideConstraints(bgp, SoVars(bgp));
      PatternHolds(env.g, t, mu);
    }
  }

  lemma CorePatternHolds(env: Env, bgp: Patterns, core: set<nat>, mu: Assignment, t: TriplePattern)
    requires QueryOk(bgp) && t in bgp && t.Within(core) && core <= mu.Keys
    requires Satisfies(env, InsideConstraints(bgp, core), Restricted(mu, core))
    ensures Holds(env.g, PatternConstraint(t), mu)
  {
    assert PatternConstraint(t) in InsideConstraints(bgp, core);
    HoldsDependsOnVariables(env.g, PatternConstraint(t), mu, Restricted(mu, core));
  }

  lemma NotInCore(core: set<nat>, satellites: set<nat>, v: nat)
    requires core !! satellites && v in satellites
    ensures v !in core
  {
  }

  lemma PatternOfSatellite(bgp: Patterns, core: set<nat>, satellites: set<nat>, v: nat) returns (t: TriplePattern)
    requires CoreAndSatellites(bgp, core, satellites) && v in satellites
    ensures t in bgp && t.About(v) && ToSatellite(t, core, satellites) && OuterEnd(t, core) == v
  {
    assert v in SoVars(bgp);
    var found :| found in bgp && found.About(v);
    NotInCore(core, satellites, v);
    assert found.About(v) && found.Joins() && !found.Within(core);
    t := found;
  }

  lemma SatelliteInDomain(env: Env, bgp: Patterns, core: set<nat>, satellites: set<nat>, mu: Assignment, v: nat)
    requires EnvFits(env, bgp) && CoreAndSatellites(bgp, core, satellites) && v in satellites && v !in env.caches && mu.Keys == SoVars(bgp)
    requires SatellitesStored(env.g, bgp, core, satellites, mu)
    ensures env.InDomain(v, mu[v])
  {
    var t := PatternOfSatellite(bgp, core, satellites, v);
    ScanCovers(env, bgp, t);
    assert Stored(env.g, t, mu);
  }

  lemma PartsToAnswer(env: Env, bgp: Patterns, core: set<nat>, satellites: set<nat>, mu: Assignment)
    requires QueryOk(bgp) && EnvFits(env, bgp) && CoreAndSatellites(bgp, core, satellites) && mu.Keys == SoVars(bgp)
    requires forall v :: v in satellites ==> v !in env.caches
    requires Satisfies(env, InsideConstraints(bgp, core), Restricted(mu, core)) && SatellitesStored(env.g, bgp, core, satellites, mu)
    ensures Satisfies(env, InsideConstraints(bgp, SoVars(bgp)), mu)
  {
    forall t | t in bgp && t.Within(SoVars(bgp)) ensures Holds(env.g, PatternConstraint(t), mu) {
      if t.Within(core) {
        CorePatternHolds(env, bgp, core, mu, t);
      } else {
        PatternHolds(env.g, t, mu);
      }
    }
    forall v | v in mu ensures env.InDomain(v, mu[v]) {
      if v in satellites {
        SatelliteInDomain(env, bgp, core, satellites, mu, v);
      } else {
        assert v in Restricted(mu, core);
      }
    }
  }

  /** An answer is a solution of the core together with stored triples to the satellites. */
  lemma AnswerSplits(env: Env, bgp: Patterns, feeds: seq<FeedOneNode>, given: map<nat, seq<nat>>, core: set<nat>, satellites: set<nat>, mu: Assignment)
    requires OldQuery(env, bgp, feeds, given, core, satellites) && mu.Keys == SoVars(bgp)
    ensures IsAnswer(env.g, bgp, given, mu) <==>
              Satisfies(env, InsideConstraints(bgp, core), Restricted(mu, core)) && SatellitesStored(env.g, bgp, core, satellites, mu)
  {
    SatisfiesIffAnswer(env, bgp, feeds, given, mu);
    if Satisfies(env, InsideConstraints(bgp, SoVars(bgp)), mu) {
      AnswerToParts(env, bgp, core, satellites, mu);
    }
    if Satisfies(env, InsideConstraints(bgp, core), Restricted(mu, core)) && SatellitesStored(env.g, bgp, core, satellites, mu) {
      PartsToAnswer(env, bgp, core, satellites, mu);
    }
  }

  // ---- records are answers ----

  /** The record shows the assignment's values of the selected variables at their places. */
  ghost predicate Shows(place: map<nat, nat>, mu: Assignment, x: seq<nat>) {
    forall v :: v in place ==> v in mu && place[v] < |x| && x[place[v]] == mu[v]
  }

  lemma OneSatellite(g: Store, t: TriplePattern, core: set<nat>, satellites: set<nat>, idPos: PositionValue, place: map<nat, nat>,
                     e: SatelliteEdge, row: Row, mu: Assignment)
    requires t.pConst && ToSatellite(t, core, satellites) && core !! satellites && EdgeOf(t, core, idPos, place, e)
    requires t.s in mu && t.o in mu && e.column < |row| && row[e.column] == mu[CoreEnd(t, core)]
    ensures mu[OuterEnd(t, core)] in SatelliteList(g, e, row) <==> Stored(g, t, mu)
  {
  }

  /** With the row's values for the core, the satellites' ids in the record are those of an answer. */
  lemma SatellitesMatch(g: Store, bgp: Patterns, core: set<nat>, satellites: set<nat>, idPos: PositionValue, posId: PositionValue,
                        l: Layout, place: map<nat, nat>, row: Row, mu: Assignment, x: seq<nat>)
    requires QueryOk(bgp) && CoreAndSatellites(bgp, core, satellites) && WritesOut(l, bgp, core, satellites, idPos, posId, place)
    requires mu.Keys == SoVars(bgp) && |row| == |l.targets| && |x| == l.recordLen && Shows(place, mu, x)
    requires Denotes(idPos, posId, row, Restricted(mu, core))
    ensures SatellitesIn(g, l, row, x) <==> SatellitesStored(g, bgp, core, satellites, mu)
  {
    forall t, e | t in bgp && ToSatellite(t, core, satellites) && e in l.edges && EdgeOf(t, core, idPos, place, e)
      ensures x[e.vpos] in SatelliteList(g, e, row) <==> Stored(g, t, mu)
    {
      assert row[e.column] == AssignmentOf(idPos, row)[CoreEnd(t, core)];
      OneSatellite(g, t, core, satellites, idPos, place, e, row, mu);
    }
    if SatellitesIn(g, l, row, x) {
      forall t | t in bgp && ToSatellite(t, core, satellites) ensures Stored(g, t, mu) {
        var e :| e in l.edges && EdgeOf(t, core, idPos, place, e);
      }
    }
    if SatellitesStored(g, bgp, core, satellites, mu) {
      forall e | e in l.edges ensures x[e.vpos] in SatelliteList(g, e, row) {
        var t :| t in bgp && ToSatellite(t, core, satellites) && EdgeOf(t, core, idPos, place, e);
      }
    }
  }

  lemma ColumnsMatch(bgp: Patterns, core: set<nat>, satellites: set<nat>, idPos: PositionValue, posId: PositionValue,
                     l: Layout, place: map<nat, nat>, row: Row, mu: Assignment, x: seq<nat>)
    requires CoreAndSatellites(bgp, core, satellites) && WritesOut(l, bgp, core, satellites, idPos, posId, place)
    requires mu.Keys == SoVars(bgp) && |row| == |l.targets| && |x| == l.recordLen
    requires Denotes(idPos, posId, row, Restricted(mu, core))
    ensures Shows(place, mu, x) ==> ColumnsIn(l, row, x)
    ensures ColumnsIn(l, row, x) ==> forall v :: v in place && v in core ==> place[v] < |x| && x[place[v]] == mu[v]
  {
    forall v | v in core ensures idPos[v] < |row| && row[idPos[v]] == mu[v] {
      assert AssignmentOf(idPos, row)[v] == mu[v];
    }
    if Shows(place, mu, x) {
      forall i | 0 <= i < |l.targets| && l.targets[i] >= 0 ensures x[l.targets[i]] == row[i] {
        assert posId[i] in place && idPos[posId[i]] == i;
      }
    }
    if ColumnsIn(l, row, x) {
      forall v | v in place && v in core ensures place[v] < |x| && x[place[v]] == mu[v] {
        CorePlace(l, idPos, posId, place, v);
      }
    }
  }

  /** The assignment of a row and a record: the core's values from the row, the satellites' from the record. */
  function Combined(bgp: Patterns, core: set<nat>, idPos: PositionValue, place: map<nat, nat>, row: Row, x: seq<nat>): (mu: Assignment)
    requires forall v :: v in core ==> v in idPos && idPos[v] < |row|
    requires forall v :: v in SoVars(bgp) && v !in core ==> v in place && place[v] < |x|
    ensures mu.Keys == SoVars(bgp)
  {
    map v | v in SoVars(bgp) :: if v in core then row[idPos[v]] else x[place[v]]
  }

  lemma PlacesInRecord(l: Layout, bgp: Patterns, core: set<nat>, satellites: set<nat>, idPos: PositionValue, posId: PositionValue, place: map<nat, nat>)
    requires CoreAndSatellites(bgp, core, satellites) && WritesOut(l, bgp, core, satellites, idPos, posId, place)
    ensures forall v :: v in place ==> place[v] < l.recordLen
  {
    forall v | v in place ensures place[v] < l.recordLen {
      if v in core {
        CorePlace(l, idPos, posId, place, v);
      } else {
        SatellitePlace(l, bgp, core, satellites, idPos, place, v);
      }
    }
  }

  lemma CorePlace(l: Layout, idPos: PositionValue, posId: PositionValue, place: map<nat, nat>, v: nat)
    requires l.Valid() && MutuallyInverse(idPos, posId, |posId|) && ColumnsPlaced(l, posId, place) && v in idPos && v in place
    ensures place[v] < l.recordLen && l.targets[idPos[v]] == place[v]
  {
    assert posId[idPos[v]] == v;
  }

  lemma SatellitePlace(l: Layout, bgp: Patterns, core: set<nat>, satellites: set<nat>, idPos: PositionValue, place: map<nat, nat>, v: nat)
    requires l.Valid() && CoreAndSatellites(bgp, core, satellites) && EdgesPlaced(l, bgp, core, satellites, idPos, place)
    requires v in satellites && v in place
    ensures place[v] < l.recordLen
  {
    var t := PatternOfSatellite(bgp, core, satellites, v);
    var e :| e in l.edges && EdgeOf(t, core, idPos, place, e);
  }

  lemma CombinedOnCore(bgp: Patterns, core: set<nat>, idPos: PositionValue, posId: PositionValue, place: map<nat, nat>, row: Row, x: seq<nat>)
    requires core <= SoVars(bgp) && idPos.Keys == core && (forall v :: v in idPos ==> idPos[v] < |row|) && |row| == |posId|
    requires forall v :: v in SoVars(bgp) && v !in core ==> v in place && place[v] < |x|
    ensures Denotes(idPos, posId, row, Restricted(Combined(bgp, core, idPos, place, row, x), core))
  {
    assert AssignmentOf(idPos, row) == Restricted(Combined(bgp, core, idPos, place, row, x), core);
  }

  lemma CombinedDenotes(bgp: Patterns, core: set<nat>, satellites: set<nat>, idPos: PositionValue, posId: PositionValue,
                        l: Layout, place: map<nat, nat>, row: Row, x: seq<nat>) returns (mu: Assignment)
    requires CoreAndSatellites(bgp, core, satellites) && WritesOut(l, bgp, core, satellites, idPos, posId, place)
    requires |row| == |l.targets| && |x| == l.recordLen && ColumnsIn(l, row, x)
    ensures mu.Keys == SoVars(bgp) && Shows(place, mu, x) && Denotes(idPos, posId, row, Restricted(mu, core))
  {
    PlacesInRecord(l, bgp, core, satellites, idPos, posId, place);
    OutsideCore(bgp, core, satellites, place);
    mu := Combined(bgp, core, idPos, place, row, x);
    CombinedOnCore(bgp, core, idPos, posId, place, row, x);
    ColumnsMatch(bgp, core, satellites, idPos, posId, l, place, row, mu, x);
    AllPlacesShown(SoVars(bgp), core, place, mu, x);
  }

  lemma OutsideCore(bgp: Patterns, core: set<nat>, satellites: set<nat>, place: map<nat, nat>)
    requires CoreAndSatellites(bgp, core, satellites) && satellites <= place.Keys <= core + satellites
    ensures core <= SoVars(bgp) && (forall v :: v in SoVars(bgp) && v !in core ==> v in place) && place.Keys <= SoVars(bgp)
  {
  }

  lemma AllPlacesShown(all: set<nat>, core: set<nat>, place: map<nat, nat>, mu: Assignment, x: seq<nat>)
    requires mu.Keys == all && place.Keys <= all && forall v :: v in place ==> place[v] < |x|
    requires forall v :: v in place && v in core ==> x[place[v]] == mu[v]
    requires forall v :: v in place && v !in core ==> x[place[v]] == mu[v]
    ensures Shows(place, mu, x)
  {
  }

  /** The joined core: an exact table, and a layout for its columns. */
  ghost predicate Joined(env: Env, bgp: Patterns, core: set<nat>, satellites: set<nat>, idPos: PositionValue, posId: PositionValue, rows: seq<Row>,
                         l: Layout, place: map<nat, nat>)
  {
    Exact(env, InsideConstraints(bgp, core), idPos, posId, rows) && WritesOut(l, bgp, core, satellites, idPos, posId, place)
  }

  lemma JoinedRowsFit(env: Env, bgp: Patterns, core: set<nat>, satellites: set<nat>, idPos: PositionValue, posId: PositionValue, rows: seq<Row>,
                      l: Layout, place: map<nat, nat>)
    requires Joined(env, bgp, core, satellites, idPos, posId, rows, l, place)
    ensures RowsFit(l, rows)
  {
    forall row | row in rows ensures |row| == |l.targets| {
      assert InTable(env, InsideConstraints(bgp, core), idPos, |posId|, row);
    }
  }

  lemma AnswerOfRecord(env: Env, bgp: Patterns, feeds: seq<FeedOneNode>, given: map<nat, seq<nat>>, core: set<nat>, satellites: set<nat>,
                       idPos: PositionValue, posId: PositionValue, rows: seq<Row>, l: Layout, place: map<nat, nat>, row: Row, x: seq<nat>)
    returns (mu: Assignment)
    requires OldQuery(env, bgp, feeds, given, core, satellites) && Joined(env, bgp, core, satellites, idPos, posId, rows, l, place)
    requires row in rows && |row| == |l.targets| && x in RowRecords(env.g, l, row)
    ensures IsAnswer(env.g, bgp, given, mu) && |x| == l.recordLen && Shows(place, mu, x)
  {
    PlacesApart(l, bgp, core, satellites, idPos, posId, place);
    RowRecord(env.g, l, row, x);
    mu := CombinedDenotes(bgp, core, satellites, idPos, posId, l, place, row, x);
    SatellitesMatch(env.g, bgp, core, satellites, idPos, posId, l, place, row, mu, x);
    assert InTable(env, InsideConstraints(bgp, core), idPos, |posId|, row);
    AnswerSplits(env, bgp, feeds, given, core, satellites, mu);
  }

  lemma RowOfSolution(env: Env, bgp: Patterns, core: set<nat>, satellites: set<nat>, idPos: PositionValue, posId: PositionValue, rows: seq<Row>,
                      l: Layout, place: map<nat, nat>, mu: Assignment) returns (row: Row)
    requires Joined(env, bgp, core, satellites, idPos, posId, rows, l, place) && core <= mu.Keys
    requires Satisfies(env, InsideConstraints(bgp, core), Restricted(mu, core))
    ensures row in rows && |row| == |l.targets| && Denotes(idPos, posId, row, Restricted(mu, core))
  {
    assert Restricted(mu, core).Keys == idPos.Keys;
    ExactMeansEachSolutionOnce(env, InsideConstraints(bgp, core), idPos, posId, rows, Restricted(mu, core));
    var i :| 0 <= i < |rows| && Denotes(idPos, posId, rows[i], Restricted(mu, core));
    row := rows[i];
  }

  lemma RecordOfAnswer(env: Env, bgp: Patterns, feeds: seq<FeedOneNode>, given: map<nat, seq<nat>>, core: set<nat>, satellites: set<nat>,
                       idPos: PositionValue, posId: PositionValue, rows: seq<Row>, l: Layout, place: map<nat, nat>, mu: Assignment, x: seq<nat>)
    returns (row: Row)
    requires OldQuery(env, bgp, feeds, given, core, satellites) && Joined(env, bgp, core, satellites, idPos, posId, rows, l, place)
    requires IsAnswer(env.g, bgp, given, mu) && |x| == l.recordLen && Shows(place, mu, x)
    ensures row in rows && |row| == |l.targets| && x in RowRecords(env.g, l, row)
  {
    AnswerSplits(env, bgp, feeds, given, core, satellites, mu);
    row := RowOfSolution(env, bgp, core, satellites, idPos, posId, rows, l, place, mu);
    SatellitesMatch(env.g, bgp, core, satellites, idPos, posId, l, place, row, mu, x);
    ColumnsMatch(bgp, core, satellites, idPos, posId, l, place, row, mu, x);
    PlacesApart(l, bgp, core, satellites, idPos, posId, place);
    RowRecord(env.g, l, row, x);
  }

  /** The records written out are exactly those that show an answer of the query. */
  lemma RecordsAreAnswers(env: Env, bgp: Patterns, feeds: seq<FeedOneNode>, given: map<nat, seq<nat>>, core: set<nat>, satellites: set<nat>,
                          idPos: PositionValue, posId: PositionValue, rows: seq<Row>, l: Layout, place: map<nat, nat>, x: seq<nat>)
    requires OldQuery(env, bgp, feeds, given, core, satellites) && Joined(env, bgp, core, satellites, idPos, posId, rows, l, place)
    ensures RowsFit(l, rows)
    ensures x in TableRecords(env.g, l, rows) <==> exists mu :: IsAnswer(env.g, bgp, given, mu) && |x| == l.recordLen && Shows(place, mu, x)
  {
    JoinedRowsFit(env, bgp, core, satellites, idPos, posId, rows, l, place);
    InTableRecords(env.g, l, rows, x);
    if x in TableRecords(env.g, l, rows) {
      var row :| row in rows && x in RowRecords(env.g, l, row);
      var mu := AnswerOfRecord(env, bgp, feeds, given, core, satellites, idPos, posId, rows, l, place, row, x);
    }
    if mu :| IsAnswer(env.g, bgp, given, mu) && |x| == l.recordLen && Shows(place, mu, x) {
      var row := RecordOfAnswer(env, bgp, feeds, given, core, satellites, idPos, posId, rows, l, place, mu, x);
    }
  }

  // ---- each answer once ----

  /** With every column placed, a record tells its row. */
  lemma RecordTellsRow(g: Store, l: Layout, a: Row, b: Row, x: seq<nat>)
    requires l.Valid() && Apart(l) && |a| == |l.targets| && |b| == |l.targets| && forall i :: 0 <= i < |l.targets| ==> l.targets[i] >= 0
    requires x in RowRecords(g, l, a) && x in RowRecords(g, l, b)
    ensures a == b
  {
    RowRecord(g, l, a, x);
    RowRecord(g, l, b, x);
    forall i | 0 <= i < |a| ensures a[i] == b[i] {
      assert x[l.targets[i]] == a[i];
    }
  }

  lemma {:induction false} LexIrreflexive(a: seq<nat>)
    ensures !LexLess(a, a)
    decreases |a|
  {
    if a != [] {
      LexIrreflexive(a[1..]);
    }
  }

  lemma RowRecordsDistinct(g: Store, l: Layout, row: Row)
    requires l.Valid() && |row| == |l.targets|
    ensures NoDuplicates(RowRecords(g, l, row))
  {
    var records := RowRecords(g, l, row);
    RowRecordsMeaning(g, l, row, []);
    forall i, j | 0 <= i < j < |records| ensures records[i] != records[j] {
      LexIrreflexive(IdsOf(records[i], SatellitesOf(g, l, row)));
    }
  }

  lemma AppendDistinct(a: seq<seq<nat>>, b: seq<seq<nat>>)
    requires NoDuplicates(a) && NoDuplicates(b) && forall x :: x in a ==> x !in b
    ensures NoDuplicates(a + b)
  {
    forall i, j | 0 <= i < j < |a + b| ensures (a + b)[i] != (a + b)[j] {
      if i < |a| <= j {
        assert (a + b)[i] in a && (a + b)[j] in b;
      }
    }
  }

  /** If all core variables are selected, no record is written twice. */
  lemma {:induction false} RecordsDistinct(g: Store, l: Layout, rows: seq<Row>)
    requires l.Valid() && Apart(l) && RowsFit(l, rows) && NoDuplicates(rows) && forall i :: 0 <= i < |l.targets| ==> l.targets[i] >= 0
    ensures NoDuplicates(TableRecords(g, l, rows))
    decreases |rows|
  {
    if rows != [] {
      var init, last := rows[..|rows| - 1], rows[|rows| - 1];
      assert rows == init + [last];
      assert last !in init;
      RecordsDistinct(g, l, init);
      RowRecordsDistinct(g, l, last);
      forall x | x in TableRecords(g, l, init) ensures x !in RowRecords(g, l, last) {
        InTableRecords(g, l, init, x);
        var row :| row in init && x in RowRecords(g, l, row);
        if x in RowRecords(g, l, last) {
          RecordTellsRow(g, l, row, last, x);
        }
      }
      AppendDistinct(TableRecords(g, l, init), RowRecords(g, l, last));
    }
  }

  lemma AnswersOnce(env: Env, bgp: Patterns, core: set<nat>, satellites: set<nat>, idPos: PositionValue, posId: PositionValue, rows: seq<Row>,
                    l: Layout, place: map<nat, nat>)
    requires CoreAndSatellites(bgp, core, satellites) && Joined(env, bgp, core, satellites, idPos, posId, rows, l, place) && core <= place.Keys
    ensures RowsFit(l, rows) && NoDuplicates(TableRecords(env.g, l, rows))
  {
    JoinedRowsFit(env, bgp, core, satellites, idPos, posId, rows, l, place);
    PlacesApart(l, bgp, core, satellites, idPos, posId, place);
    RecordsDistinct(env.g, l, rows);
  }
}
