/**
 What tables mean: a row stands for an assignment of ids to variables, an edge for a condition on
 assignments, and a table is exact when its rows are the satisfying assignments, each once
 (basic graph pattern matching, section 18.3.1 of SPARQL 1.1 Query Language).
 */
module Semantics {
  import opened Rdf
  import opened TableOperator

  type Assignment = map<nat, nat>

  /** An edge without its direction: three positions, each a variable or a constant, and which of them the edge looks at. */
  datatype Constraint = Constraint(s: nat, sConstant: bool, sSeen: bool,
                                   p: nat, pConstant: bool, pSeen: bool,
                                   o: nat, oConstant: bool, oSeen: bool) {
    function Variables(): set<nat> {
      (if sSeen && !sConstant then {s} else {})
      + (if pSeen && !pConstant then {p} else {})
      + (if oSeen && !oConstant then {o} else {})
    }
  }

  function ConstraintOf(e: Edge): Constraint {
    var m := e.info.joinMethod;
    Constraint(e.info.s, e.constant.sConstant, m.GivesS() || m.FindsS(),
               e.info.p, e.constant.pConstant, m.GivesP() || m.FindsP(),
               e.info.o, e.constant.oConstant, m.GivesO() || m.FindsO())
  }

  function ConstraintsOf(edges: seq<Edge>): set<Constraint> {
    set e | e in edges :: ConstraintOf(e)
  }

  function ValueOf(id: nat, isConstant: bool, mu: Assignment): nat {
    if isConstant then id else if id in mu then mu[id] else 0
  }

  ghost predicate Fits(c: Constraint, mu: Assignment, t: Triple) {
    && (c.sSeen ==> t.s == ValueOf(c.s, c.sConstant, mu))
    && (c.pSeen ==> t.p == ValueOf(c.p, c.pConstant, mu))
    && (c.oSeen ==> t.o == ValueOf(c.o, c.oConstant, mu))
  }

  /** Some stored triple agrees with the assignment at every position the constraint looks at. */
  ghost predicate Holds(g: Store, c: Constraint, mu: Assignment) {
    exists t :: t in g && Fits(c, mu, t)
  }

  lemma HoldsDependsOnVariables(g: Store, c: Constraint, mu: Assignment, mu': Assignment)
    requires forall v :: v in c.Variables() ==> v in mu && v in mu' && mu[v] == mu'[v]
    ensures Holds(g, c, mu) <==> Holds(g, c, mu')
  {
    forall t ensures Fits(c, mu, t) <==> Fits(c, mu', t) {
      assert c.sSeen && !c.sConstant ==> c.s in c.Variables();
      assert c.pSeen && !c.pConstant ==> c.p in c.Variables();
      assert c.oSeen && !c.oConstant ==> c.o in c.Variables();
    }
  }

  /** The roles in which a variable occurs in the query; they decide which ids a bare scan returns. */
  datatype Role = Role(isEntity: bool, isLiteral: bool, isPredicate: bool)

  /** Everything a step reads and does not change: the store, the candidate caches, the live ids. */
  datatype Env = Env(g: Store, caches: map<nat, seq<nat>>, roles: map<nat, Role>,
                     entities: set<nat>, literals: set<nat>, predicates: set<nat>) {
    /** The ids a scan of the variable returns when it has no candidate cache. */
    function ScanIds(v: nat): set<nat> {
      if v !in roles then {}
      else if roles[v].isPredicate then predicates
      else if roles[v].isEntity then entities + (if roles[v].isLiteral then literals else {})
      else {}
    }

    /** The ids a variable may take. */
    ghost predicate InDomain(v: nat, x: nat) {
      if v in caches then x in caches[v] else x in ScanIds(v)
    }

    ghost predicate CachesSorted() {
      forall v :: v in caches ==> StrictlyIncreasing(caches[v])
    }
  }

  ghost predicate Satisfies(env: Env, constraints: set<Constraint>, mu: Assignment) {
    && (forall c :: c in constraints ==> Holds(env.g, c, mu))
    && (forall v :: v in mu ==> env.InDomain(v, mu[v]))
  }

  /** The assignment a row stands for. */
  function AssignmentOf(idPos: PositionValue, row: Row): Assignment
    requires forall v :: v in idPos ==> idPos[v] < |row|
  {
    map v | v in idPos :: row[idPos[v]]
  }

  function RowOf(posId: PositionValue, width: nat, mu: Assignment): Row
    requires forall i :: 0 <= i < width ==> i in posId && posId[i] in mu
  {
    seq(width, i requires 0 <= i < width => mu[posId[i]])
  }

  lemma RowAssignmentInverse(idPos: PositionValue, posId: PositionValue, width: nat, mu: Assignment)
    requires MutuallyInverse(idPos, posId, width) && mu.Keys == idPos.Keys
    ensures forall i :: 0 <= i < width ==> i in posId && posId[i] in mu
    ensures AssignmentOf(idPos, RowOf(posId, width, mu)) == mu
  {
  }

  lemma AssignmentInjective(idPos: PositionValue, posId: PositionValue, width: nat, a: Row, b: Row)
    requires MutuallyInverse(idPos, posId, width) && |a| == width && |b| == width
    requires AssignmentOf(idPos, a) == AssignmentOf(idPos, b)
    ensures a == b
  {
    forall i | 0 <= i < width ensures a[i] == b[i] {
      var v := posId[i];
      assert AssignmentOf(idPos, a)[v] == a[i];
      assert AssignmentOf(idPos, b)[v] == b[i];
    }
  }

  ghost predicate InTable(env: Env, constraints: set<Constraint>, idPos: PositionValue, width: nat, row: Row)
    requires forall v :: v in idPos ==> idPos[v] < width
  {
    |row| == width && Satisfies(env, constraints, AssignmentOf(idPos, row))
  }

  /** The rows are the assignments that satisfy the constraints, each of them once. */
  ghost predicate Exact(env: Env, constraints: set<Constraint>, idPos: PositionValue, posId: PositionValue, rows: seq<Row>) {
    && MutuallyInverse(idPos, posId, |posId|)
    && NoDuplicates(rows)
    && (forall c :: c in constraints ==> c.Variables() <= idPos.Keys)
    && (forall row :: row in rows <==> InTable(env, constraints, idPos, |posId|, row))
  }

  ghost predicate Denotes(idPos: PositionValue, posId: PositionValue, row: Row, mu: Assignment) {
    && |row| == |posId|
    && (forall v :: v in idPos ==> idPos[v] < |row|)
    && AssignmentOf(idPos, row) == mu
  }

  /** The same statement for assignments: each solution over the columns is the meaning of exactly one row. */
  lemma ExactMeansEachSolutionOnce(env: Env, constraints: set<Constraint>, idPos: PositionValue, posId: PositionValue, rows: seq<Row>,
                                   mu: Assignment)
    requires Exact(env, constraints, idPos, posId, rows)
    requires mu.Keys == idPos.Keys
    ensures Satisfies(env, constraints, mu) <==> exists i :: 0 <= i < |rows| && Denotes(idPos, posId, rows[i], mu)
    ensures forall i, j :: 0 <= i < |rows| && 0 <= j < |rows| && Denotes(idPos, posId, rows[i], mu) && Denotes(idPos, posId, rows[j], mu) ==> i == j
  {
    RowAssignmentInverse(idPos, posId, |posId|, mu);
    var row := RowOf(posId, |posId|, mu);
    if Satisfies(env, constraints, mu) {
      assert InTable(env, constraints, idPos, |posId|, row);
      assert row in rows;
      var i :| 0 <= i < |rows| && rows[i] == row;
      assert Denotes(idPos, posId, rows[i], mu);
    }
    if i :| 0 <= i < |rows| && Denotes(idPos, posId, rows[i], mu) {
      assert rows[i] in rows;
      assert InTable(env, constraints, idPos, |posId|, rows[i]);
    }
    forall i, j | 0 <= i < |rows| && 0 <= j < |rows| && Denotes(idPos, posId, rows[i], mu) && Denotes(idPos, posId, rows[j], mu)
      ensures i == j
    {
      AssignmentInjective(idPos, posId, |posId|, rows[i], rows[j]);
    }
  }
}
