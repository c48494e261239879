/**
 Inserting and removing one triple at a time, without a transaction: the string-to-id dictionaries, the
 id allocators and the triple count follow the stored triples.
 */
module TripleUpdates {
  import opened Rdf
  import opened IdSpaces

  /** A triple in words; an object is an entity or a literal. */
  datatype Statement = Statement(subj: string, pred: string, obj: string, entityObject: bool)

  datatype Contents = Contents(entities: Space, predicates: Space, literals: Space, triples: Store)

  function UsedEntities(triples: Store): set<nat> {
    (set t | t in triples :: t.s) + (set t | t in triples && t.o < LITERAL_FIRST_ID :: t.o)
  }

  function UsedPredicates(triples: Store): set<nat> {
    set t | t in triples :: t.p
  }

  function UsedLiterals(triples: Store): set<nat> {
    set t | t in triples && t.o >= LITERAL_FIRST_ID :: t.o - LITERAL_FIRST_ID
  }

  ghost predicate AllSound(c: Contents) {
    Sound(c.entities) && Sound(c.predicates) && Sound(c.literals)
  }

  ghost predicate SubjectsAreEntities(triples: Store) {
    forall t :: t in triples ==> t.s < LITERAL_FIRST_ID
  }

  /** Between updates an id is live exactly if it occurs in a stored triple. */
  ghost predicate Live(c: Contents) {
    && AllSound(c) && SubjectsAreEntities(c.triples)
    && c.entities.nameOf.Keys == UsedEntities(c.triples)
    && c.predicates.nameOf.Keys == UsedPredicates(c.triples)
    && c.literals.nameOf.Keys == UsedLiterals(c.triples)
  }

  ghost predicate Named(c: Contents, t: Triple) {
    && t.s in c.entities.nameOf && t.p in c.predicates.nameOf
    && (if t.o < LITERAL_FIRST_ID then t.o in c.entities.nameOf else t.o - LITERAL_FIRST_ID in c.literals.nameOf)
  }

  ghost function InWords(c: Contents, t: Triple): Statement
    requires Named(c, t)
  {
    Statement(c.entities.nameOf[t.s], c.predicates.nameOf[t.p],
              if t.o < LITERAL_FIRST_ID then c.entities.nameOf[t.o] else c.literals.nameOf[t.o - LITERAL_FIRST_ID],
              t.o < LITERAL_FIRST_ID)
  }

  lemma LiveNamed(c: Contents, t: Triple)
    requires Live(c) && t in c.triples
    ensures Named(c, t)
  {
    assert t.s in UsedEntities(c.triples) && t.p in UsedPredicates(c.triples);
    if t.o < LITERAL_FIRST_ID {
      assert t.o in UsedEntities(c.triples);
    } else {
      assert t.o - LITERAL_FIRST_ID in UsedLiterals(c.triples);
    }
  }

  /** Whether a statement is stored. */
  ghost predicate Stores(c: Contents, x: Statement) {
    exists t :: t in c.triples && Named(c, t) && InWords(c, t) == x
  }

  /** The ids a statement would have, if all its words are known. */
  ghost predicate Known(c: Contents, x: Statement) {
    && x.subj in c.entities.idOf && x.pred in c.predicates.idOf
    && (if x.entityObject then x.obj in c.entities.idOf else x.obj in c.literals.idOf)
  }

  ghost function Ids(c: Contents, x: Statement): Triple
    requires Known(c, x)
  {
    Triple(c.entities.idOf[x.subj], c.predicates.idOf[x.pred],
           if x.entityObject then c.entities.idOf[x.obj] else c.literals.idOf[x.obj] + LITERAL_FIRST_ID)
  }

  lemma IdsNamed(c: Contents, x: Statement)
    requires AllSound(c) && Known(c, x)
    ensures Named(c, Ids(c, x)) && InWords(c, Ids(c, x)) == x
    ensures Ids(c, x).s < LITERAL_FIRST_ID && (Ids(c, x).o < LITERAL_FIRST_ID <==> x.entityObject)
  {
  }

  lemma WordsKnown(c: Contents, t: Triple)
    requires AllSound(c) && Named(c, t)
    ensures Known(c, InWords(c, t)) && Ids(c, InWords(c, t)) == t
  {
  }

  /** A statement is stored exactly if its words are known and its id triple is stored. */
  lemma StoresIff(c: Contents, x: Statement)
    requires AllSound(c)
    ensures Stores(c, x) <==> Known(c, x) && Ids(c, x) in c.triples
  {
    if Stores(c, x) {
      var t :| t in c.triples && Named(c, t) && InWords(c, t) == x;
      WordsKnown(c, t);
    }
    if Known(c, x) && Ids(c, x) in c.triples {
      IdsNamed(c, x);
    }
  }

  /** The statements that are stored. */
  ghost function Statements(c: Contents): set<Statement> {
    set t | t in c.triples && Named(c, t) :: InWords(c, t)
  }

  lemma InStatements(c: Contents, x: Statement)
    ensures x in Statements(c) <==> Stores(c, x)
  {
  }

  // ---- runs of updates ----

  datatype Update = Inserting(x: Statement) | Removing(x: Statement)

  function Updated(s: set<Statement>, u: Update): set<Statement> {
    if u.Inserting? then s + {u.x} else s - {u.x}
  }

  function Listed(xs: seq<Statement>): set<Statement> {
    set x | x in xs
  }

  lemma ListedOneMore(xs: seq<Statement>, i: nat)
    requires i < |xs|
    ensures Listed(xs[..i + 1]) == Listed(xs[..i]) + {xs[i]}
  {
    assert xs[..i + 1] == xs[..i] + [xs[i]];
  }

  function Replay(s: set<Statement>, us: seq<Update>): set<Statement> {
    if us == [] then s else Updated(Replay(s, us[..|us| - 1]), us[|us| - 1])
  }

  // ---- inserting a statement ----

  /** The words of one state are still there, with the same ids, in another. */
  ghost predicate Extends(c: Contents, d: Contents) {
    d.triples == c.triples && KeepsNames(c.entities, d.entities) && KeepsNames(c.predicates, d.predicates) && KeepsNames(c.literals, d.literals)
  }

  /** Giving ids to new words does not change which statements are stored. */
  lemma ExtendsStores(c: Contents, d: Contents, x: Statement)
    requires Live(c) && AllSound(d) && Extends(c, d)
    ensures Stores(c, x) <==> Stores(d, x)
  {
    StoresIff(c, x);
    StoresIff(d, x);
    if Known(d, x) && Ids(d, x) in c.triples {
      LiveNamed(c, Ids(d, x));
      WordsKnown(c, Ids(d, x));
      IdsNamed(d, x);
    }
  }

  function EntitiesOf(t: Triple): set<nat> {
    if t.o < LITERAL_FIRST_ID then {t.s, t.o} else {t.s}
  }

  function LiteralsOf(t: Triple): set<nat> {
    if t.o < LITERAL_FIRST_ID then {} else {t.o - LITERAL_FIRST_ID}
  }

  lemma UsedWith(triples: Store, t: Triple)
    requires t.s < LITERAL_FIRST_ID
    ensures UsedEntities(triples + {t}) == UsedEntities(triples) + EntitiesOf(t)
    ensures UsedPredicates(triples + {t}) == UsedPredicates(triples) + {t.p}
    ensures UsedLiterals(triples + {t}) == UsedLiterals(triples) + LiteralsOf(t)
  {
    assert forall u :: u in triples + {t} <==> u in triples || u == t;
  }

  function EntitiesResolved(s: Space, x: Statement): Space {
    if x.entityObject then Resolved(Resolved(s, x.subj), x.obj) else Resolved(s, x.subj)
  }

  function LiteralsResolved(s: Space, x: Statement): Space {
    if x.entityObject then s else Resolved(s, x.obj)
  }

  /** The state once all words of a statement have ids. */
  function WordsResolved(c: Contents, x: Statement): Contents {
    Contents(EntitiesResolved(c.entities, x), Resolved(c.predicates, x.pred), LiteralsResolved(c.literals, x), c.triples)
  }

  /** No allocator is close to the end of its range. */
  ghost predicate Roomy(c: Contents) {
    && c.entities.limit + 2 < LITERAL_FIRST_ID && c.predicates.limit + 1 < LITERAL_FIRST_ID
    && c.literals.limit + 1 < LITERAL_FIRST_ID
  }

  function OwnEntities(s: Space, x: Statement): set<nat>
    requires x.subj in s.idOf && (x.entityObject ==> x.obj in s.idOf)
  {
    if x.entityObject then {s.idOf[x.subj], s.idOf[x.obj]} else {s.idOf[x.subj]}
  }

  function OwnLiterals(s: Space, x: Statement): set<nat>
    requires !x.entityObject ==> x.obj in s.idOf
  {
    if x.entityObject then {} else {s.idOf[x.obj]}
  }

  lemma OwnIds(c: Contents, x: Statement)
    requires AllSound(c) && Known(c, x)
    ensures OwnEntities(c.entities, x) == EntitiesOf(Ids(c, x)) && OwnLiterals(c.literals, x) == LiteralsOf(Ids(c, x))
    ensures Ids(c, x).s < LITERAL_FIRST_ID
  {
    IdsNamed(c, x);
  }

  lemma EntitiesResolvedSound(s: Space, x: Statement)
    requires Sound(s) && s.limit + 2 < LITERAL_FIRST_ID
    ensures Sound(EntitiesResolved(s, x)) && KeepsNames(s, EntitiesResolved(s, x)) && HasRoom(Resolved(s, x.subj))
    ensures x.subj in EntitiesResolved(s, x).idOf && (x.entityObject ==> x.obj in EntitiesResolved(s, x).idOf)
    ensures EntitiesResolved(s, x).nameOf.Keys == s.nameOf.Keys + OwnEntities(EntitiesResolved(s, x), x)
  {
    ResolvedSound(s, x.subj);
    if x.entityObject {
      ResolvedSound(Resolved(s, x.subj), x.obj);
      AddedTwice(s.nameOf.Keys, Resolved(s, x.subj).idOf[x.subj], EntitiesResolved(s, x).idOf[x.obj]);
    }
  }

  lemma AddedTwice(live: set<nat>, a: nat, b: nat)
    ensures live + {a} + {b} == live + {a, b}
  {
  }

  lemma LiteralsResolvedSound(s: Space, x: Statement)
    requires Sound(s) && s.limit + 1 < LITERAL_FIRST_ID
    ensures Sound(LiteralsResolved(s, x)) && KeepsNames(s, LiteralsResolved(s, x))
    ensures !x.entityObject ==> x.obj in LiteralsResolved(s, x).idOf
    ensures LiteralsResolved(s, x).nameOf.Keys == s.nameOf.Keys + OwnLiterals(LiteralsResolved(s, x), x)
  {
    if !x.entityObject {
      ResolvedSound(s, x.obj);
    }
  }

  lemma WordsResolvedSound(c: Contents, x: Statement)
    requires AllSound(c) && Roomy(c)
    ensures AllSound(WordsResolved(c, x)) && Extends(c, WordsResolved(c, x)) && Known(WordsResolved(c, x), x)
  {
    EntitiesResolvedSound(c.entities, x);
    ResolvedSound(c.predicates, x.pred);
    LiteralsResolvedSound(c.literals, x);
  }

  /** The state after an insertion. */
  ghost function Inserted(c: Contents, x: Statement): Contents
    requires Known(WordsResolved(c, x), x)
  {
    WordsResolved(c, x).(triples := c.triples + {Ids(WordsResolved(c, x), x)})
  }

  lemma InsertedKeys(c: Contents, x: Statement)
    requires Live(c) && Roomy(c) && Known(WordsResolved(c, x), x)
    ensures Inserted(c, x).entities.nameOf.Keys == UsedEntities(Inserted(c, x).triples)
    ensures Inserted(c, x).predicates.nameOf.Keys == UsedPredicates(Inserted(c, x).triples)
    ensures Inserted(c, x).literals.nameOf.Keys == UsedLiterals(Inserted(c, x).triples)
  {
    var d := WordsResolved(c, x);
    var t := Ids(d, x);
    assert AllSound(d) by {
      WordsResolvedSound(c, x);
    }
    OwnIds(d, x);
    UsedWith(c.triples, t);
    assert d.entities.nameOf.Keys == c.entities.nameOf.Keys + EntitiesOf(t) by {
      EntitiesResolvedSound(c.entities, x);
    }
    assert d.predicates.nameOf.Keys == c.predicates.nameOf.Keys + {t.p} by {
      ResolvedSound(c.predicates, x.pred);
    }
    assert d.literals.nameOf.Keys == c.literals.nameOf.Keys + LiteralsOf(t) by {
      LiteralsResolvedSound(c.literals, x);
    }
  }

  lemma InsertLive(c: Contents, x: Statement)
    requires Live(c) && Roomy(c) && Known(WordsResolved(c, x), x)
    ensures Live(Inserted(c, x))
  {
    InsertedKeys(c, x);
    WordsResolvedSound(c, x);
    OwnIds(WordsResolved(c, x), x);
  }

  lemma RoomForWords(c: Contents, x: Statement)
    requires AllSound(c) && Roomy(c)
    ensures HasRoom(c.entities) && HasRoom(Resolved(c.entities, x.subj)) && HasRoom(c.predicates) && HasRoom(c.literals)
    ensures Known(WordsResolved(c, x), x)
  {
    EntitiesResolvedSound(c.entities, x);
    WordsResolvedSound(c, x);
  }

  /** A statement with a word that had no id cannot have been stored, so its triple is only looked up if all words were known. */
  lemma StoredOnlyIfKnown(c: Contents, x: Statement, t: Triple, allKnown: bool)
    requires Live(c) && Roomy(c) && Known(WordsResolved(c, x), x) && t == Ids(WordsResolved(c, x), x)
    requires allKnown <==> Known(c, x)
    ensures Stores(c, x) <==> allKnown && t in c.triples
    ensures t in c.triples ==> allKnown
    ensures allKnown ==> WordsResolved(c, x) == c
  {
    WordsResolvedSound(c, x);
    StoresIff(c, x);
    if t in c.triples {
      StoresIff(WordsResolved(c, x), x);
      ExtendsStores(c, WordsResolved(c, x), x);
    }
  }

  lemma IdsInjective(c: Contents, x: Statement, y: Statement)
    requires AllSound(c) && Known(c, x) && Known(c, y) && Ids(c, x) == Ids(c, y)
    ensures x == y
  {
    IdsNamed(c, x);
    IdsNamed(c, y);
  }

  lemma StoredWith(d: Contents, x: Statement, y: Statement)
    requires AllSound(d) && Known(d, x)
    ensures Stores(d.(triples := d.triples + {Ids(d, x)}), y) <==> Stores(d, y) || y == x
  {
    StoresIff(d, y);
    StoresIff(d.(triples := d.triples + {Ids(d, x)}), y);
    if Known(d, y) && Ids(d, y) == Ids(d, x) {
      IdsInjective(d, x, y);
    }
  }

  /** After an insertion the statement is stored, and otherwise nothing has changed. */
  lemma InsertMeaning(c: Contents, x: Statement)
    requires Live(c) && Roomy(c) && Known(WordsResolved(c, x), x)
    ensures forall y :: Stores(Inserted(c, x), y) <==> Stores(c, y) || y == x
  {
    WordsResolvedSound(c, x);
    forall y ensures Stores(Inserted(c, x), y) <==> Stores(c, y) || y == x {
      ExtendsStores(c, WordsResolved(c, x), y);
      StoredWith(WordsResolved(c, x), x, y);
    }
  }

  /** The two ways an insertion can end: the statement was there, or it has a new triple. */
  lemma InsertEnds(c: Contents, x: Statement, t: Triple, allKnown: bool)
    requires Live(c) && Roomy(c) && Known(WordsResolved(c, x), x) && t == Ids(WordsResolved(c, x), x)
    requires allKnown <==> Known(c, x)
    ensures allKnown && t in c.triples ==> Stores(c, x) && WordsResolved(c, x) == c
    ensures !(allKnown && t in c.triples) ==> !Stores(c, x) && |c.triples + {t}| == |c.triples| + 1
  {
    StoredOnlyIfKnown(c, x, t, allKnown);
    OneMoreTriple(c.triples, t);
  }

  lemma OneMoreTriple(triples: set<Triple>, t: Triple)
    ensures t !in triples ==> |triples + {t}| == |triples| + 1
  {
  }

  /** How much room an update can take away: at most two entity ids, one predicate id and one literal id. */
  ghost predicate RoomTaken(c: Contents, d: Contents) {
    && d.entities.limit <= c.entities.limit + 2 && d.predicates.limit <= c.predicates.limit + 1
    && d.literals.limit <= c.literals.limit + 1
  }

  lemma InsertedDone(c: Contents, x: Statement)
    requires Live(c) && Roomy(c) && Known(WordsResolved(c, x), x)
    ensures Live(Inserted(c, x)) && forall y :: Stores(Inserted(c, x), y) <==> Stores(c, y) || y == x
  {
    InsertMeaning(c, x);
    InsertLive(c, x);
  }

  lemma InsertedRoom(c: Contents, x: Statement)
    requires Known(WordsResolved(c, x), x)
    ensures RoomTaken(c, Inserted(c, x)) && RoomTaken(c, c)
  {
  }

  // ---- removing a statement ----

  ghost predicate LosesNames(c: Contents, g: Contents) {
    FewerNames(c.entities, g.entities) && FewerNames(c.predicates, g.predicates) && FewerNames(c.literals, g.literals)
  }

  lemma NamedAlike(c: Contents, g: Contents, t: Triple)
    requires LosesNames(c, g) && Named(g, t)
    ensures Named(c, t) && InWords(c, t) == InWords(g, t)
  {
  }

  /** Taking a triple away and forgetting unused words removes one statement and keeps all others. */
  lemma RemoveMeaning(c: Contents, g: Contents, x: Statement)
    requires Live(c) && Live(g) && LosesNames(c, g)
    requires Known(c, x) && Ids(c, x) in c.triples && g.triples == c.triples - {Ids(c, x)}
    ensures forall y :: Stores(g, y) <==> Stores(c, y) && y != x
  {
    forall y ensures Stores(g, y) <==> Stores(c, y) && y != x {
      if Stores(g, y) {
        RemovedWas(c, g, x, y);
      }
      if Stores(c, y) && y != x {
        RemovedStays(c, g, x, y);
      }
    }
  }

  lemma RemovedWas(c: Contents, g: Contents, x: Statement, y: Statement)
    requires AllSound(c) && LosesNames(c, g) && Known(c, x) && g.triples == c.triples - {Ids(c, x)} && Stores(g, y)
    ensures Stores(c, y) && y != x
  {
    var u :| u in g.triples && Named(g, u) && InWords(g, u) == y;
    NamedAlike(c, g, u);
    WordsKnown(c, u);
  }

  lemma RemovedStays(c: Contents, g: Contents, x: Statement, y: Statement)
    requires AllSound(c) && Live(g) && LosesNames(c, g) && Known(c, x) && g.triples == c.triples - {Ids(c, x)}
    requires Stores(c, y) && y != x
    ensures Stores(g, y)
  {
    StoresIff(c, y);
    var u := Ids(c, y);
    if u == Ids(c, x) {
      IdsInjective(c, x, y);
    }
    IdsNamed(c, y);
    LiveNamed(g, u);
    NamedAlike(c, g, u);
  }

  lemma SameNamesStoreSame(f: Contents, g: Contents)
    requires f.triples == g.triples && f.entities.nameOf == g.entities.nameOf
    requires f.predicates.nameOf == g.predicates.nameOf && f.literals.nameOf == g.literals.nameOf
    ensures forall y :: Stores(f, y) <==> Stores(g, y)
  {
    forall y ensures Stores(f, y) <==> Stores(g, y) {
      forall t | t in f.triples ensures Named(f, t) <==> Named(g, t) {
      }
      assert forall t :: t in f.triples && Named(f, t) ==> InWords(f, t) == InWords(g, t);
    }
  }

  /** No stored statement other than this one mentions its subject. */
  ghost predicate OnlyMention(c: Contents, x: Statement) {
    forall y :: Stores(c, y) && y != x ==> y.subj != x.subj && !(y.entityObject && y.obj == x.subj)
  }

  /** The statement is there, its subject is its object, and nothing else there mentions that word: removing it gives the word's id back twice. */
  ghost predicate LastMention(s: set<Statement>, x: Statement) {
    x in s && x.entityObject && x.subj == x.obj && forall y :: y in s && y != x ==> y.subj != x.subj && !(y.entityObject && y.obj == x.subj)
  }

  lemma LastMentionMeaning(c: Contents, x: Statement)
    ensures LastMention(Statements(c), x) <==> Stores(c, x) && x.entityObject && x.subj == x.obj && OnlyMention(c, x)
  {
    forall y ensures y in Statements(c) <==> Stores(c, y) {
      InStatements(c, y);
    }
  }

  /** No removal of the run is of the last mention of a word. */
  ghost predicate HarmlessAt(s: set<Statement>, us: seq<Update>, i: nat)
    requires i < |us|
  {
    us[i].Removing? ==> !LastMention(Replay(s, us[..i]), us[i].x)
  }

  ghost predicate Harmless(s: set<Statement>, us: seq<Update>) {
    forall i :: 0 <= i < |us| ==> HarmlessAt(s, us, i)
  }

  /** The same for a list of statements removed one after the other. */
  ghost predicate RemovableAt(s: set<Statement>, xs: seq<Statement>, i: nat)
    requires i < |xs|
  {
    !LastMention(s - Listed(xs[..i]), xs[i])
  }

  ghost predicate Removable(s: set<Statement>, xs: seq<Statement>) {
    forall i :: 0 <= i < |xs| ==> RemovableAt(s, xs, i)
  }

  lemma OnlyMentionUnused(c: Contents, x: Statement)
    requires Live(c) && Known(c, x) && OnlyMention(c, x)
    ensures Ids(c, x).s !in UsedEntities(c.triples - {Ids(c, x)})
  {
    var t := Ids(c, x);
    if t.s in UsedEntities(c.triples - {t}) {
      var u :| u in c.triples - {t} && (u.s == t.s || u.o == t.s);
      LiveNamed(c, u);
      WordsKnown(c, u);
      assert Stores(c, InWords(c, u));
      IdsNamed(c, x);
    }
  }

  lemma UnusedOnlyMention(c: Contents, x: Statement)
    requires AllSound(c) && Known(c, x) && Ids(c, x).s !in UsedEntities(c.triples - {Ids(c, x)})
    ensures OnlyMention(c, x)
  {
    forall y | Stores(c, y) && y != x ensures y.subj != x.subj && !(y.entityObject && y.obj == x.subj) {
      StoresIff(c, y);
      if Ids(c, y) == Ids(c, x) {
        IdsInjective(c, x, y);
      }
      assert Ids(c, y) in c.triples - {Ids(c, x)};
    }
  }

  /** Whether a removal would give the same id back twice: the subject is also the object, and nothing else uses its id. */
  ghost predicate FreesTwice(c: Contents, x: Statement)
    requires Known(c, x)
  {
    x.entityObject && x.subj == x.obj && Ids(c, x).s !in UsedEntities(c.triples - {Ids(c, x)})
  }

  function EntitiesSwept(s: Space, x: Statement, used: set<nat>): Space
    requires x.subj in s.idOf && (x.entityObject ==> x.obj in s.idOf)
  {
    if x.entityObject && x.obj != x.subj then Swept(Swept(s, x.subj, used), x.obj, used) else Swept(s, x.subj, used)
  }

  lemma EntitiesSweptSound(s: Space, x: Statement, used: set<nat>)
    requires Sound(s) && x.subj in s.idOf && (x.entityObject ==> x.obj in s.idOf)
    ensures Sound(EntitiesSwept(s, x, used)) && FewerNames(s, EntitiesSwept(s, x, used))
    ensures EntitiesSwept(s, x, used).nameOf.Keys == s.nameOf.Keys - (OwnEntities(s, x) - used)
  {
    SweptSound(s, x.subj, used);
    if x.entityObject && x.obj != x.subj {
      SweptSound(Swept(s, x.subj, used), x.obj, used);
      SweptTwice(s.nameOf.Keys, s.idOf[x.subj], s.idOf[x.obj], used);
    }
  }

  lemma SweptTwice(live: set<nat>, a: nat, b: nat, used: set<nat>)
    ensures live - ({a} - used) - ({b} - used) == live - ({a, b} - used)
  {
  }

  function LiteralsSwept(s: Space, x: Statement, used: set<nat>): Space
    requires !x.entityObject ==> x.obj in s.idOf
  {
    if x.entityObject then s else Swept(s, x.obj, used)
  }

  /** The state a removal should lead to: the triple is gone, and so are the words nobody uses any more. */
  ghost function Removed(c: Contents, x: Statement): Contents
    requires Known(c, x)
  {
    var rest := c.triples - {Ids(c, x)};
    Contents(EntitiesSwept(c.entities, x, UsedEntities(rest)), Swept(c.predicates, x.pred, UsedPredicates(rest)),
             LiteralsSwept(c.literals, x, UsedLiterals(rest)), rest)
  }

  lemma LiteralsSweptSound(s: Space, x: Statement, used: set<nat>)
    requires Sound(s) && (!x.entityObject ==> x.obj in s.idOf)
    ensures Sound(LiteralsSwept(s, x, used)) && FewerNames(s, LiteralsSwept(s, x, used))
    ensures LiteralsSwept(s, x, used).nameOf.Keys == s.nameOf.Keys - (OwnLiterals(s, x) - used)
  {
    if !x.entityObject {
      SweptSound(s, x.obj, used);
    }
  }

  lemma RemovedSound(c: Contents, x: Statement)
    requires AllSound(c) && Known(c, x)
    ensures AllSound(Removed(c, x)) && LosesNames(c, Removed(c, x))
  {
    var rest := c.triples - {Ids(c, x)};
    EntitiesSweptSound(c.entities, x, UsedEntities(rest));
    SweptSound(c.predicates, x.pred, UsedPredicates(rest));
    LiteralsSweptSound(c.literals, x, UsedLiterals(rest));
  }

  lemma UnusedGone(live: set<nat>, used: set<nat>, own: set<nat>)
    requires live == used + own
    ensures live - (own - used) == used
  {
  }

  lemma UsedWithout(c: Contents, x: Statement)
    requires AllSound(c) && Known(c, x) && Ids(c, x) in c.triples
    ensures var rest := c.triples - {Ids(c, x)};
            && UsedEntities(c.triples) == UsedEntities(rest) + OwnEntities(c.entities, x)
            && UsedPredicates(c.triples) == UsedPredicates(rest) + {c.predicates.idOf[x.pred]}
            && UsedLiterals(c.triples) == UsedLiterals(rest) + OwnLiterals(c.literals, x)
  {
    OwnIds(c, x);
    UsedWith(c.triples - {Ids(c, x)}, Ids(c, x));
    assert c.triples == c.triples - {Ids(c, x)} + {Ids(c, x)};
  }

  lemma RemovedKeys(c: Contents, x: Statement)
    requires Live(c) && Known(c, x) && Ids(c, x) in c.triples
    ensures Removed(c, x).entities.nameOf.Keys == UsedEntities(Removed(c, x).triples)
    ensures Removed(c, x).predicates.nameOf.Keys == UsedPredicates(Removed(c, x).triples)
    ensures Removed(c, x).literals.nameOf.Keys == UsedLiterals(Removed(c, x).triples)
  {
    var rest := c.triples - {Ids(c, x)};
    UsedWithout(c, x);
    EntitiesSweptSound(c.entities, x, UsedEntities(rest));
    UnusedGone(c.entities.nameOf.Keys, UsedEntities(rest), OwnEntities(c.entities, x));
    SweptSound(c.predicates, x.pred, UsedPredicates(rest));
    UnusedGone(c.predicates.nameOf.Keys, UsedPredicates(rest), {c.predicates.idOf[x.pred]});
    LiteralsSweptSound(c.literals, x, UsedLiterals(rest));
    UnusedGone(c.literals.nameOf.Keys, UsedLiterals(rest), OwnLiterals(c.literals, x));
  }

  lemma RemovedLive(c: Contents, x: Statement)
    requires Live(c) && Known(c, x) && Ids(c, x) in c.triples
    ensures Live(Removed(c, x))
  {
    RemovedSound(c, x);
    RemovedKeys(c, x);
  }

  /** The state a removal really leads to: if it frees an id twice, the entities have lost one more. */
  ghost predicate RemovalState(c: Contents, x: Statement, d: Contents)
    requires Known(c, x)
  {
    d == if FreesTwice(c, x) then Removed(c, x).(entities := Dropped(Removed(c, x).entities, x.subj, Ids(c, x).s)) else Removed(c, x)
  }

  /** A removal removes one statement and keeps all others; it leaves a sound state exactly if it frees no id twice. */
  lemma RemovalEnds(c: Contents, x: Statement, d: Contents)
    requires Live(c) && Known(c, x) && Ids(c, x) in c.triples && RemovalState(c, x, d)
    ensures forall y :: Stores(d, y) <==> Stores(c, y) && y != x
    ensures Live(d) <==> !(x.entityObject && x.subj == x.obj && OnlyMention(c, x))
  {
    RemovedLive(c, x);
    RemovedSound(c, x);
    RemoveMeaning(c, Removed(c, x), x);
    if OnlyMention(c, x) {
      OnlyMentionUnused(c, x);
    }
    if FreesTwice(c, x) {
      UnusedOnlyMention(c, x);
      FreedTwiceState(c, x, d);
      SameNamesStoreSame(d, Removed(c, x));
    }
  }

  lemma RemovalRoom(c: Contents, x: Statement, d: Contents)
    requires Known(c, x) && RemovalState(c, x, d)
    ensures RoomTaken(c, d)
  {
  }

  lemma FreedTwiceState(c: Contents, x: Statement, d: Contents)
    requires AllSound(c) && Known(c, x) && FreesTwice(c, x) && RemovalState(c, x, d)
    ensures !Sound(d.entities) && d.entities.nameOf == Removed(c, x).entities.nameOf
  {
    DroppedTwiceUnsound(c.entities, x.subj);
    var once := Dropped(c.entities, x.subj, Ids(c, x).s);
    assert Removed(c, x).entities == once;
    assert once.nameOf - {Ids(c, x).s} == once.nameOf;
  }

  function OneWord(word: string): Space {
    Space(1, [], 1, map[word := 0], map[0 := word])
  }

  /** A store that holds a single statement about a word and itself. */
  function SelfStore(word: string, link: string): Contents {
    Contents(OneWord(word), OneWord(link), Space(0, [], 0, map[], map[]), {Triple(0, 0, 0)})
  }

  lemma OneWordSound(word: string)
    ensures Sound(OneWord(word)) && Sound(Space(0, [], 0, map[], map[]))
    ensures OneWord(word).nameOf.Keys == {0}
  {
    assert OneWord(word).nameOf.Keys == {0};
    assert |OneWord(word).nameOf.Keys| == 1;
  }

  lemma OneTripleUsed()
    ensures var t := Triple(0, 0, 0);
            UsedEntities({t}) == {0} && UsedPredicates({t}) == {0} && UsedLiterals({t}) == {} && UsedEntities({t} - {t}) == {}
  {
    var t := Triple(0, 0, 0);
    assert t in {t};
    assert {t} - {t} == {};
  }

  /** Removing the only statement of such a store is an update that gives an id back twice. */
  lemma SelfStatementFreesTwice(word: string, link: string)
    ensures Live(SelfStore(word, link)) && Known(SelfStore(word, link), Statement(word, link, word, true))
    ensures FreesTwice(SelfStore(word, link), Statement(word, link, word, true))
  {
    OneWordSound(word);
    OneWordSound(link);
    OneTripleUsed();
  }

  /** After it, the next two new words are given the same id. */
  lemma TwiceFreedIsShared(word: string, first: string, second: string)
    requires first != second
    ensures var after := Dropped(Dropped(OneWord(word), word, 0), word, 0);
            Resolved(Resolved(after, first), second).idOf == map[first := 0, second := 0]
  {
    var after := Dropped(Dropped(OneWord(word), word, 0), word, 0);
    assert after.limit == 0 && after.freeIds == [0] && after.idOf == map[];
    assert Resolved(after, first).freeIds == [] && Resolved(after, first).limit == 0;
  }

  lemma UpdatedStatements(c: Contents, d: Contents, u: Update)
    requires if u.Inserting? then forall y :: Stores(d, y) <==> Stores(c, y) || y == u.x
             else forall y :: Stores(d, y) <==> Stores(c, y) && y != u.x
    ensures Statements(d) == Updated(Statements(c), u)
  {
    forall y ensures y in Statements(d) <==> y in Updated(Statements(c), u) {
      InStatements(c, y);
      InStatements(d, y);
    }
  }

  function Restarted(c: Contents): Contents {
    c.(entities := c.entities.(limit := 0, freeIds := []), predicates := c.predicates.(limit := 0, freeIds := []),
       literals := c.literals.(limit := 0, freeIds := []))
  }

  /** Without triples no id is live, so the allocators can start over. */
  lemma ResetLive(c: Contents)
    requires Live(c) && c.triples == {}
    ensures Live(Restarted(c))
  {
    assert c.entities.nameOf.Keys == {} && c.predicates.nameOf.Keys == {} && c.literals.nameOf.Keys == {};
    EmptySpaceResets(c.entities);
    EmptySpaceResets(c.predicates);
    EmptySpaceResets(c.literals);
  }

  /** How many triple ends an entity is at. */
  function EntityDegree(triples: Store, i: nat): nat {
    |set t | t in triples && t.s == i| + |set t | t in triples && t.o == i|
  }

  function PredicateDegree(triples: Store, i: nat): nat {
    |set t | t in triples && t.p == i|
  }

  function LiteralDegree(triples: Store, o: nat): nat {
    |set t | t in triples && t.o == o|
  }

  /** An id is in use exactly if its degree is not zero. */
  lemma EntityInUse(triples: Store, i: nat)
    requires i < LITERAL_FIRST_ID
    ensures EntityDegree(triples, i) != 0 <==> i in UsedEntities(triples)
  {
    var from, to := set t | t in triples && t.s == i, set t | t in triples && t.o == i;
    if t :| t in triples && (t.s == i || t.o == i) {
      assert t in from || t in to;
      assert from != {} || to != {};
    } else {
      assert from == {} && to == {};
    }
  }

  lemma PredicateInUse(triples: Store, i: nat)
    ensures PredicateDegree(triples, i) != 0 <==> i in UsedPredicates(triples)
  {
    var labelled := set t | t in triples && t.p == i;
    if t :| t in triples && t.p == i {
      assert t in labelled;
    } else {
      assert labelled == {};
    }
  }

  lemma LiteralInUse(triples: Store, o: nat)
    requires o >= LITERAL_FIRST_ID
    ensures LiteralDegree(triples, o) != 0 <==> o - LITERAL_FIRST_ID in UsedLiterals(triples)
  {
    var literal := set t | t in triples && t.o == o;
    if t :| t in triples && t.o == o {
      assert t in literal;
    } else {
      assert literal == {};
    }
  }
}
