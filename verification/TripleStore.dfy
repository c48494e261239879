/** The part of the database that keeps its dictionaries, allocators and triple count in step with its triples. */
module TripleStore {
  import opened Rdf
  import opened IdSpaces
  import opened TripleUpdates

  class Database {
    const entities: IdSpace
    const predicates: IdSpace
    const literals: IdSpace
    var triples: Store
    var triplesNum: int

    ghost predicate Separate()
    {
      entities != predicates && entities != literals && predicates != literals
    }

    ghost function State(): Contents
      reads this, entities, predicates, literals
    {
      Contents(entities.Value(), predicates.Value(), literals.Value(), triples)
    }

    /** The dictionaries and allocators hold exactly the ids in use, and the count is right. */
    ghost predicate Valid()
      reads this, entities, predicates, literals
    {
      Separate() && Live(State()) && triplesNum == |triples|
    }

    constructor ()
      ensures Valid() && triples == {} && fresh(entities) && fresh(predicates) && fresh(literals)
    {
      entities := new IdSpace();
      predicates := new IdSpace();
      literals := new IdSpace();
      triples := {};
      triplesNum := 0;
    }

    /** Looks the words of a statement up, giving ids to those that have none. */
    method ResolveWords(x: Statement) returns (t: Triple, allKnown: bool)
      requires Separate() && HasRoom(entities.Value()) && HasRoom(Resolved(entities.Value(), x.subj))
      requires HasRoom(predicates.Value()) && HasRoom(literals.Value())
      modifies entities, predicates, literals
      ensures State() == WordsResolved(old(State()), x) && Known(State(), x) && t == Ids(State(), x)
      ensures allKnown <==> Known(old(State()), x)
    {
      var sid, newSubject := entities.Resolve(x.subj);
      var pid, newPredicate := predicates.Resolve(x.pred);
      var oid, newObject;
      if x.entityObject {
        oid, newObject := entities.Resolve(x.obj);
      } else {
        oid, newObject := literals.Resolve(x.obj);
        oid := oid + LITERAL_FIRST_ID;
      }
      t := Triple(sid, pid, oid);
      allKnown := !newSubject && !newPredicate && !newObject;
    }

    /** Gives ids to the words of a statement that have none, and stores its triple unless it already is. */
    method StoreTriple(x: Statement) returns (inserted: bool)
      requires Valid() && Roomy(State()) && Known(WordsResolved(State(), x), x)
      modifies this`triples, this`triplesNum, entities, predicates, literals
      ensures Separate() && triplesNum == |triples|
      ensures inserted <==> !Stores(old(State()), x)
      ensures !inserted ==> State() == old(State()) && triplesNum == old(triplesNum)
      ensures inserted ==> State() == Inserted(old(State()), x) && triplesNum == old(triplesNum) + 1
    {
      ghost var c := State();
      RoomForWords(c, x);
      var t, allKnown := ResolveWords(x);
      InsertEnds(c, x, t, allKnown);
      if allKnown && t in triples {
        return false;
      }
      triplesNum := triplesNum + 1;
      triples := triples + {t};
      inserted := true;
    }

    /**
     Inserts a statement: words without an id get one, and the triple is stored unless it already is.
     Afterwards exactly this statement is stored in addition.
     */
    method Insert(x: Statement) returns (inserted: bool)
      requires Valid() && Roomy(State())
      modifies this`triples, this`triplesNum, entities, predicates, literals
      ensures Valid()
      ensures inserted <==> !Stores(old(State()), x)
      ensures forall y :: Stores(State(), y) <==> Stores(old(State()), y) || y == x
      ensures !inserted ==> State() == old(State()) && triplesNum == old(triplesNum)
      ensures inserted ==> triplesNum == old(triplesNum) + 1
      ensures RoomTaken(old(State()), State())
    {
      ghost var c := State();
      RoomForWords(c, x);
      InsertedDone(c, x);
      InsertedRoom(c, x);
      inserted := StoreTriple(x);
    }

    /** Forgets an entity unless a triple uses it. */
    method SweepEntity(name: string, id: nat)
      requires id < LITERAL_FIRST_ID
      modifies entities
      ensures entities.Value() == if id in UsedEntities(triples) then old(entities.Value())
                                  else IdSpaces.Dropped(old(entities.Value()), name, id)
    {
      EntityInUse(triples, id);
      if EntityDegree(triples, id) == 0 {
        entities.Drop(name, id);
      }
    }

    method SweepLiteral(name: string, oid: nat)
      requires oid >= LITERAL_FIRST_ID
      modifies literals
      ensures literals.Value() == if oid - LITERAL_FIRST_ID in UsedLiterals(triples) then old(literals.Value())
                                  else IdSpaces.Dropped(old(literals.Value()), name, oid - LITERAL_FIRST_ID)
    {
      LiteralInUse(triples, oid);
      if LiteralDegree(triples, oid) == 0 {
        literals.Drop(name, oid - LITERAL_FIRST_ID);
      }
    }

    /** Forgets the subject and the object of a removed triple unless another triple uses them. */
    method SweepSubjectAndObject(x: Statement, sid: nat, oid: nat)
      requires Separate() && Sound(entities.Value()) && Sound(literals.Value())
      requires x.subj in entities.idOf && sid == entities.idOf[x.subj]
      requires if x.entityObject then x.obj in entities.idOf && oid == entities.idOf[x.obj]
               else x.obj in literals.idOf && oid == literals.idOf[x.obj] + LITERAL_FIRST_ID
      modifies entities, literals
      ensures literals.Value() == LiteralsSwept(old(literals.Value()), x, UsedLiterals(triples))
      ensures var swept := EntitiesSwept(old(entities.Value()), x, UsedEntities(triples));
              entities.Value() == if x.entityObject && x.subj == x.obj && sid !in UsedEntities(triples)
                                  then IdSpaces.Dropped(swept, x.subj, sid) else swept
    {
      assert sid < LITERAL_FIRST_ID;
      if x.entityObject {
        assert oid < LITERAL_FIRST_ID && (x.obj != x.subj ==> sid != oid);
        SweepEntity(x.subj, sid);
        SweepEntity(x.obj, oid);
      } else {
        SweepEntity(x.subj, sid);
        SweepLiteral(x.obj, oid);
      }
    }

    /** The ids of a statement, if every word of it has one. */
    method LookUp(x: Statement) returns (known: bool, t: Triple)
      ensures known <==> Known(State(), x)
      ensures known ==> t == Ids(State(), x)
    {
      if x.subj !in entities.idOf || x.pred !in predicates.idOf || (x.entityObject && x.obj !in entities.idOf)
         || (!x.entityObject && x.obj !in literals.idOf) {
        return false, Triple(0, 0, 0);
      }
      var oid := if x.entityObject then entities.idOf[x.obj] else literals.idOf[x.obj] + LITERAL_FIRST_ID;
      return true, Triple(entities.idOf[x.subj], predicates.idOf[x.pred], oid);
    }

    /** Takes a stored triple out and forgets the words of it that no other triple uses. */
    method TakeOut(x: Statement, t: Triple)
      requires Separate() && AllSound(State()) && Known(State(), x) && t == Ids(State(), x) && t in triples
      requires triplesNum == |triples|
      modifies this`triples, this`triplesNum, entities, predicates, literals
      ensures RemovalState(old(State()), x, State())
      ensures triplesNum == old(triplesNum) - 1 == |triples|
    {
      triplesNum := triplesNum - 1;
      triples := triples - {t};
      SweepSubjectAndObject(x, t.s, t.o);
      PredicateInUse(triples, t.p);
      if PredicateDegree(triples, t.p) == 0 {
        predicates.Drop(x.pred, t.p);
      }
    }

    /**
     Removes a statement: its triple goes, and so does every word of it that nobody uses any more. The
     state is sound afterwards exactly if no id was given back twice, which happens when the subject is
     also the object and no other statement mentions it.
     */
    method Remove(x: Statement) returns (removed: bool)
      requires Valid()
      modifies this`triples, this`triplesNum, entities, predicates, literals
      ensures removed <==> Stores(old(State()), x)
      ensures forall y :: Stores(State(), y) <==> Stores(old(State()), y) && y != x
      ensures !removed ==> State() == old(State()) && triplesNum == old(triplesNum)
      ensures removed ==> triplesNum == old(triplesNum) - 1
      ensures Valid() <==> !(removed && x.entityObject && x.subj == x.obj && OnlyMention(old(State()), x))
      ensures RoomTaken(old(State()), State())
    {
      ghost var c := State();
      StoresIff(c, x);
      var known, t := LookUp(x);
      if !known || t !in triples {
        return false;
      }
      TakeOut(x, t);
      RemovalEnds(c, x, State());
      RemovalRoom(c, x, State());
      removed := true;
    }

    method InsertStatement(x: Statement)
      requires Valid() && Roomy(State())
      modifies this`triples, this`triplesNum, entities, predicates, literals
      ensures Valid() && Statements(State()) == Statements(old(State())) + {x} && RoomTaken(old(State()), State())
    {
      var _ := Insert(x);
      UpdatedStatements(old(State()), State(), Inserting(x));
    }

    method RemoveStatement(x: Statement) returns (removed: bool)
      requires Valid() && !LastMention(Statements(State()), x)
      modifies this`triples, this`triplesNum, entities, predicates, literals
      ensures Valid() && Statements(State()) == Statements(old(State())) - {x} && RoomTaken(old(State()), State())
      ensures triplesNum == old(triplesNum) - (if removed then 1 else 0)
    {
      LastMentionMeaning(State(), x);
      removed := Remove(x);
      UpdatedStatements(old(State()), State(), Removing(x));
    }

    /**
     Any run of insertions and removals, none of which gives an id back twice, leaves the dictionaries,
     allocators and count exact and stores what replaying the run on sets of statements gives.
     */
    method Run(us: seq<Update>)
      requires Valid() && Harmless(Statements(State()), us)
      requires entities.limit + 2 * |us| < LITERAL_FIRST_ID && predicates.limit + |us| < LITERAL_FIRST_ID
      requires literals.limit + |us| < LITERAL_FIRST_ID
      modifies this`triples, this`triplesNum, entities, predicates, literals
      ensures Valid() && Statements(State()) == Replay(Statements(old(State())), us)
    {
      ghost var before := Statements(State());
      assert us[..0] == [];
      for i := 0 to |us|
        invariant Valid() && Statements(State()) == Replay(before, us[..i])
        invariant entities.limit + 2 * (|us| - i) < LITERAL_FIRST_ID && predicates.limit + (|us| - i) < LITERAL_FIRST_ID
        invariant literals.limit + (|us| - i) < LITERAL_FIRST_ID
      {
        assert us[..i + 1][..i] == us[..i];
        assert HarmlessAt(before, us, i);
        if us[i].Inserting? {
          InsertStatement(us[i].x);
        } else {
          var _ := RemoveStatement(us[i].x);
        }
      }
      assert us[..|us|] == us;
    }

    method ResetIDinfo()
      requires Valid() && triples == {}
      modifies entities, predicates, literals
      ensures Valid() && State() == Restarted(old(State()))
      ensures Statements(State()) == {} == Statements(old(State()))
    {
      ResetLive(State());
      entities.Reset();
      predicates.Reset();
      literals.Reset();
    }

    /**
     Removes several statements; once no triple is left the allocators start over, and since then no id is
     live either, this loses none.
     */
    method RemoveAll(xs: seq<Statement>) returns (n: nat)
      requires Valid() && Removable(Statements(State()), xs)
      modifies this`triples, this`triplesNum, entities, predicates, literals
      ensures Valid() && triplesNum == old(triplesNum) - n
      ensures Statements(State()) == Statements(old(State())) - Listed(xs)
      ensures triplesNum == 0 ==> entities.limit == 0 && predicates.limit == 0 && literals.limit == 0
    {
      n := RemoveEach(xs);
      if triplesNum == 0 {
        ResetIDinfo();
      }
    }

    method RemoveEach(xs: seq<Statement>) returns (n: nat)
      requires Valid() && Removable(Statements(State()), xs)
      modifies this`triples, this`triplesNum, entities, predicates, literals
      ensures Valid() && triplesNum == old(triplesNum) - n
      ensures Statements(State()) == Statements(old(State())) - Listed(xs)
    {
      n := 0;
      ghost var before := Statements(State());
      for i := 0 to |xs|
        invariant Valid() && triplesNum == old(triplesNum) - n
        invariant Statements(State()) == before - Listed(xs[..i])
      {
        ListedOneMore(xs, i);
        assert RemovableAt(before, xs, i);
        var removed := RemoveStatement(xs[i]);
        if removed {
          n := n + 1;
        }
      }
      assert xs[..|xs|] == xs;
    }
  }
}
