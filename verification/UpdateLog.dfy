/**
 Restoring from the update log: its insertions and removals are netted against each other, and what is
 left is inserted and then removed.
 */
module UpdateLog {
  import opened Rdf
  import opened TripleStore
  import opened TripleUpdates

  // ---- netting two multisets in place ----

  function Erased<T>(r: seq<T>, i: nat): seq<T>
    requires i < |r|
  {
    r[..i] + r[i + 1..]
  }

  /** Where the netting stands: some removals are dealt with, and one of them may still wait to be erased. */
  ghost predicate Netting<T>(inserts: multiset<T>, done: multiset<T>, i: multiset<T>, kept: seq<T>, pending: bool) {
    && i == inserts - done
    && (pending ==> kept != [])
    && multiset(if pending then kept[..|kept| - 1] else kept) == done - inserts
  }

  /** One more removal: it cancels an insertion and is marked for erasing, or it stays. */
  lemma NettingNext<T>(inserts: multiset<T>, done: multiset<T>, i: multiset<T>, kept: seq<T>, x: T)
    requires Netting(inserts, done, i, kept, false)
    ensures x in i ==> Netting(inserts, done + multiset{x}, i - multiset{x}, kept + [x], true)
    ensures x !in i ==> Netting(inserts, done + multiset{x}, i, kept + [x], false)
  {
    assert (kept + [x])[..|kept|] == kept;
  }

  lemma OneFurther<T>(r: seq<T>, it: nat)
    requires it < |r|
    ensures r[..it + 1] == r[..it] + [r[it]]
    ensures multiset(r[it..]) == multiset{r[it]} + multiset(r[it + 1..])
  {
    assert r[it..] == [r[it]] + r[it + 1..];
  }

  lemma PendingErased<T>(inserts: multiset<T>, done: multiset<T>, i: multiset<T>, r: seq<T>, it: nat)
    requires it <= |r| && Netting(inserts, done, i, r[..it], true)
    ensures it > 0 && Netting(inserts, done, i, Erased(r, it - 1)[..it - 1], false)
    ensures Erased(r, it - 1)[it - 1..] == r[it..]
  {
    assert Erased(r, it - 1)[..it - 1] == r[..it][..it - 1];
  }

  /** The walk is at some entry; what lies behind it is netted. */
  ghost predicate At<T>(inserts: multiset<T>, removes: seq<T>, done: multiset<T>, i: multiset<T>, r: seq<T>, it: nat, toErase: bool)
  {
    it <= |r| && Netting(inserts, done, i, r[..it], toErase) && done + multiset(r[it..]) == multiset(removes)
  }

  lemma Start<T>(inserts: multiset<T>, removes: seq<T>)
    ensures At(inserts, removes, multiset{}, inserts, removes, 0, false)
  {
    assert removes[0..] == removes;
  }

  lemma EraseStep<T>(inserts: multiset<T>, removes: seq<T>, done: multiset<T>, i: multiset<T>, r: seq<T>, it: nat)
    requires At(inserts, removes, done, i, r, it, true)
    ensures it > 0 && At(inserts, removes, done, i, Erased(r, it - 1), it - 1, false)
  {
    PendingErased(inserts, done, i, r, it);
  }

  lemma TakeStep<T>(inserts: multiset<T>, removes: seq<T>, done: multiset<T>, i: multiset<T>, r: seq<T>, it: nat)
    requires At(inserts, removes, done, i, r, it, false) && it < |r|
    ensures At(inserts, removes, done + multiset{r[it]}, if r[it] in i then i - multiset{r[it]} else i, r, it + 1, r[it] in i)
  {
    OneFurther(r, it);
    NettingNext(inserts, done, i, r[..it], r[it]);
  }

  lemma Finish<T>(inserts: multiset<T>, removes: seq<T>, done: multiset<T>, i: multiset<T>, r: seq<T>, it: nat)
    requires At(inserts, removes, done, i, r, it, false) && |r| <= it
    ensures i == inserts - multiset(removes) && multiset(r) == multiset(removes) - inserts
  {
    assert r[..|r|] == r && r[|r|..] == [];
  }

  /** Erases the entry the walk has just left. */
  method EraseEarlier<T>(ghost inserts: multiset<T>, ghost removes: seq<T>, ghost done: multiset<T>, ghost i: multiset<T>, r: seq<T>, it: nat)
    returns (shorter: seq<T>, at: nat)
    requires At(inserts, removes, done, i, r, it, true)
    ensures At(inserts, removes, done, i, shorter, at, false) && |shorter| - at == |r| - it
  {
    EraseStep(inserts, removes, done, i, r, it);
    shorter, at := Erased(r, it - 1), it - 1;
  }

  /** Takes the entry the walk is at off the insertions, if it is among them. */
  method Take<T(==)>(ghost inserts: multiset<T>, ghost removes: seq<T>, ghost done: multiset<T>, i: multiset<T>, r: seq<T>, it: nat)
    returns (left: multiset<T>, toErase: bool, ghost further: multiset<T>)
    requires At(inserts, removes, done, i, r, it, false) && it < |r|
    ensures At(inserts, removes, further, left, r, it + 1, toErase)
  {
    further := done + multiset{r[it]};
    TakeStep(inserts, removes, done, i, r, it);
    toErase := r[it] in i;
    left := if toErase then i - multiset{r[it]} else i;
  }

  /**
   Cancels the removals against the insertions, walking the list of removals while erasing from it: the
   entry to be erased is erased one round late, when the walk has left it.
   */
  method NetUpdates<T(==)>(inserts: multiset<T>, removes: seq<T>) returns (i: multiset<T>, r: seq<T>)
    ensures i == inserts - multiset(removes)
    ensures multiset(r) == multiset(removes) - inserts
  {
    i, r := inserts, removes;
    var it: nat, toErase := 0, false;
    ghost var done: multiset<T> := multiset{};
    Start(inserts, removes);
    while it < |r|
      invariant At(inserts, removes, done, i, r, it, toErase)
      decreases |r| - it
    {
      if toErase {
        r, it := EraseEarlier(inserts, removes, done, i, r, it);
      }
      i, toErase, done := Take(inserts, removes, done, i, r, it);
      it := it + 1;
    }
    if toErase {
      r, it := EraseEarlier(inserts, removes, done, i, r, it);
    }
    Finish(inserts, removes, done, i, r, it);
  }

  // ---- what restoring comes to ----

  function Inserts(log: seq<Update>): multiset<Statement> {
    if log == [] then multiset{} else
      Inserts(log[..|log| - 1]) + (if log[|log| - 1].Inserting? then multiset{log[|log| - 1].x} else multiset{})
  }

  function Removes(log: seq<Update>): multiset<Statement> {
    if log == [] then multiset{} else
      Removes(log[..|log| - 1]) + (if log[|log| - 1].Removing? then multiset{log[|log| - 1].x} else multiset{})
  }

  /** The statements after inserting what is left of the insertions and removing what is left of the removals. */
  function Restored(s: set<Statement>, log: seq<Update>): set<Statement> {
    s + (set x | x in Inserts(log) - Removes(log)) - (set x | x in Removes(log) - Inserts(log))
  }

  /** A log in which every update took effect when it was made. */
  predicate Effective(s: set<Statement>, log: seq<Update>) {
    log == [] ||
    var before, last := log[..|log| - 1], log[|log| - 1];
    Effective(s, before) && (last.Inserting? <==> last.x !in Replay(s, before))
  }

  /** In an effective log the updates of a statement alternate, so their counts tell whether it is there. */
  lemma {:induction false} EffectiveCounts(s: set<Statement>, log: seq<Update>, x: Statement)
    requires Effective(s, log)
    ensures Inserts(log)[x] + (if x in s then 1 else 0) == Removes(log)[x] + (if x in Replay(s, log) then 1 else 0)
  {
    if log != [] {
      EffectiveCounts(s, log[..|log| - 1], x);
    }
  }

  /** Restoring from an effective log gives what replaying it in order gives. */
  lemma EffectiveLogRestores(s: set<Statement>, log: seq<Update>)
    requires Effective(s, log)
    ensures Restored(s, log) == Replay(s, log)
  {
    forall x ensures x in Restored(s, log) <==> x in Replay(s, log) {
      EffectiveCounts(s, log, x);
    }
  }

  /** The last update of a statement in a log, if there is one. */
  function LastUpdate(log: seq<Update>, x: Statement): (u: seq<Update>)
    ensures |u| <= 1
  {
    if log == [] then [] else if log[|log| - 1].x == x then [log[|log| - 1]] else LastUpdate(log[..|log| - 1], x)
  }

  lemma {:induction false} ReplayIsLast(s: set<Statement>, log: seq<Update>, x: Statement)
    ensures x in Replay(s, log) <==> if LastUpdate(log, x) == [] then x in s else LastUpdate(log, x)[0].Inserting?
    ensures LastUpdate(log, x) == [] ==> Inserts(log)[x] == 0 && Removes(log)[x] == 0
  {
    if log != [] {
      ReplayIsLast(s, log[..|log| - 1], x);
    }
  }

  /** The counts of a statement's updates agree with the last of them. */
  predicate CountsAgree(s: set<Statement>, log: seq<Update>, x: Statement) {
    var n, m, last := Inserts(log)[x], Removes(log)[x], LastUpdate(log, x);
    last == [] || (if last[0].Inserting? then n > m || (n == m && x in s) else n < m || (n == m && x !in s))
  }

  /**
   Any log: restoring gives what replaying gives exactly if, for every updated statement, the last update
   is the more frequent one, or they are equally frequent and the statement was there at first exactly if
   the last update inserts it.
   */
  lemma RestoresIffCountsAgree(s: set<Statement>, log: seq<Update>)
    ensures Restored(s, log) == Replay(s, log) <==> forall x :: CountsAgree(s, log, x)
  {
    forall x ensures (x in Restored(s, log) <==> x in Replay(s, log)) <==> CountsAgree(s, log, x) {
      ReplayIsLast(s, log, x);
    }
    if Restored(s, log) == Replay(s, log) {
      assert forall x :: x in Restored(s, log) <==> x in Replay(s, log);
    }
  }

  /** The log also holds updates that took no effect: inserting a stored statement and removing it is netted to nothing. */
  lemma IneffectiveLogFails(x: Statement)
    ensures Restored({x}, [Inserting(x), Removing(x)]) == {x} && Replay({x}, [Inserting(x), Removing(x)]) == {}
  {
    var first, log := [Inserting(x)], [Inserting(x), Removing(x)];
    assert log[..|log| - 1] == first && first[..|first| - 1] == [];
    assert Inserts(first) == multiset{x};
    assert Removes([]) == multiset{};
    assert Removes(first) == multiset{};
    assert Replay({x}, first) == {x};
  }

  // ---- restoring a database ----

  /** Collects the insertions and the removals of a log. */
  method ReadUpdateLog(log: seq<Update>) returns (i: multiset<Statement>, r: seq<Statement>)
    ensures i == Inserts(log) && multiset(r) == Removes(log)
  {
    i, r := multiset{}, [];
    assert log[..0] == [];
    for k := 0 to |log|
      invariant i == Inserts(log[..k]) && multiset(r) == Removes(log[..k])
    {
      assert log[..k + 1][..k] == log[..k];
      if log[k].Inserting? {
        i := i + multiset{log[k].x};
      } else {
        r := r + [log[k].x];
      }
    }
    assert log[..|log|] == log;
  }

  lemma {:induction false} AtMostLog(log: seq<Update>)
    ensures |Inserts(log)| <= |log|
    ensures forall x :: x in Removes(log) ==> exists k :: 0 <= k < |log| && log[k] == Removing(x)
  {
    if log != [] {
      var init := log[..|log| - 1];
      AtMostLog(init);
      forall x | x in Removes(log) ensures exists k :: 0 <= k < |log| && log[k] == Removing(x) {
        if x in Removes(init) {
          var k :| 0 <= k < |init| && init[k] == Removing(x);
          assert log[k] == Removing(x);
        } else {
          assert log[|log| - 1] == Removing(x);
        }
      }
    }
  }

  ghost predicate RoomFor(c: Contents, n: nat) {
    c.entities.limit + 2 * n < LITERAL_FIRST_ID && c.predicates.limit + n < LITERAL_FIRST_ID && c.literals.limit + n < LITERAL_FIRST_ID
  }

  lemma RoomLeft(c: Contents, d: Contents, n: nat)
    requires RoomFor(c, n) && n > 0
    ensures Roomy(c) && (RoomTaken(c, d) ==> RoomFor(d, n - 1))
  {
  }

  function Members(i: multiset<Statement>): set<Statement> {
    set x | x in i
  }

  /** Of the insertions, all but the rest have been made. */
  ghost predicate InsertedSoFar(before: set<Statement>, i: multiset<Statement>, rest: multiset<Statement>, now: set<Statement>) {
    now + Members(rest) == before + Members(i)
  }

  lemma InsertedOneMore(before: set<Statement>, i: multiset<Statement>, rest: multiset<Statement>, now: set<Statement>, x: Statement)
    requires InsertedSoFar(before, i, rest, now) && x in rest
    ensures InsertedSoFar(before, i, rest - multiset{x}, now + {x}) && |rest - multiset{x}| == |rest| - 1
  {
    assert now + {x} + Members(rest - multiset{x}) == now + Members(rest);
  }

  method InsertLeft(db: Database, i: multiset<Statement>)
    requires db.Valid() && RoomFor(db.State(), |i|)
    modifies db`triples, db`triplesNum, db.entities, db.predicates, db.literals
    ensures db.Valid() && Statements(db.State()) == Statements(old(db.State())) + Members(i)
  {
    var rest := i;
    ghost var before, now := Statements(db.State()), Statements(db.State());
    while rest != multiset{}
      invariant db.Valid() && RoomFor(db.State(), |rest|)
      invariant now == Statements(db.State()) && InsertedSoFar(before, i, rest, now)
      decreases |rest|
    {
      var x :| x in rest;
      now := InsertNext(db, x, before, i, rest, now);
      rest := rest - multiset{x};
    }
    AllInserted(before, i, now);
  }

  lemma AllInserted(before: set<Statement>, i: multiset<Statement>, now: set<Statement>)
    requires InsertedSoFar(before, i, multiset{}, now)
    ensures now == before + Members(i)
  {
  }

  method InsertNext(db: Database, x: Statement, ghost before: set<Statement>, ghost i: multiset<Statement>, ghost rest: multiset<Statement>,
                    ghost now: set<Statement>)
    returns (ghost next: set<Statement>)
    requires db.Valid() && x in rest && RoomFor(db.State(), |rest|)
    requires now == Statements(db.State()) && InsertedSoFar(before, i, rest, now)
    modifies db`triples, db`triplesNum, db.entities, db.predicates, db.literals
    ensures db.Valid() && RoomFor(db.State(), |rest - multiset{x}|) && |rest - multiset{x}| < |rest|
    ensures next == Statements(db.State()) && InsertedSoFar(before, i, rest - multiset{x}, next)
  {
    InsertedOneMore(before, i, rest, now, x);
    next := InsertOne(db, x, |rest|, now);
  }

  method InsertOne(db: Database, x: Statement, ghost n: nat, ghost now: set<Statement>) returns (ghost next: set<Statement>)
    requires db.Valid() && n > 0 && RoomFor(db.State(), n) && now == Statements(db.State())
    modifies db`triples, db`triplesNum, db.entities, db.predicates, db.literals
    ensures db.Valid() && RoomFor(db.State(), n - 1) && next == now + {x} == Statements(db.State())
  {
    ghost var c := db.State();
    RoomLeft(c, c, n);
    db.InsertStatement(x);
    RoomLeft(c, db.State(), n);
    next := Statements(db.State());
  }

  /**
   Restores a database from a log: the database is sound again, and holds what netting leaves. When the
   log is effective, that is what replaying the log in order would have given.
   */
  method RestoreUpdate(db: Database, log: seq<Update>)
    requires db.Valid() && RoomFor(db.State(), |log|)
    requires forall k :: 0 <= k < |log| && log[k].Removing? && log[k].x.entityObject ==> log[k].x.subj != log[k].x.obj
    modifies db`triples, db`triplesNum, db.entities, db.predicates, db.literals
    ensures db.Valid() && Statements(db.State()) == Restored(Statements(old(db.State())), log)
    ensures Effective(Statements(old(db.State())), log) ==> Statements(db.State()) == Replay(Statements(old(db.State())), log)
  {
    ghost var before := Statements(db.State());
    if Effective(before, log) {
      EffectiveLogRestores(before, log);
    }
    AtMostLog(log);
    var i, r := ReadUpdateLog(log);
    ghost var removes := r;
    var left;
    left, r := NetUpdates(i, r);
    NettedSize(i, Removes(log));
    InsertLeft(db, left);
    NettedRemoves(log, r);
    NoSelfRemovable(Statements(db.State()), r);
    var _ := db.RemoveAll(r);
  }

  lemma NoSelfRemovable(s: set<Statement>, xs: seq<Statement>)
    requires forall k :: 0 <= k < |xs| && xs[k].entityObject ==> xs[k].subj != xs[k].obj
    ensures Removable(s, xs)
  {
    forall i | 0 <= i < |xs| ensures RemovableAt(s, xs, i) {
    }
  }

  lemma NettedSize(i: multiset<Statement>, m: multiset<Statement>)
    ensures |i - m| <= |i|
  {
    assert i == (i - m) + (i * m);
  }

  lemma NettedRemoves(log: seq<Update>, r: seq<Statement>)
    requires multiset(r) == Removes(log) - Inserts(log)
    ensures Listed(r) == set x | x in Removes(log) - Inserts(log)
    ensures forall k :: 0 <= k < |r| ==> exists j :: 0 <= j < |log| && log[j] == Removing(r[k])
  {
    AtMostLog(log);
    assert forall x :: x in r <==> x in multiset(r);
    forall k | 0 <= k < |r| ensures exists j :: 0 <= j < |log| && log[j] == Removing(r[k]) {
      assert r[k] in multiset(r);
      assert r[k] in Removes(log);
    }
  }
}
