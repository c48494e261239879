/**
 One kind of ids (entities, literals or predicates): the allocator with its free list, and the two
 dictionaries between strings and ids.
 */
module IdSpaces {
  import opened Rdf

  datatype Option<T> = None | Some(value: T)

  datatype Space = Space(limit: nat, freeIds: seq<nat>, count: int, idOf: map<string, nat>, nameOf: map<nat, string>)

  ghost predicate MutuallyInverse(s: Space) {
    && (forall n :: n in s.idOf ==> s.idOf[n] in s.nameOf && s.nameOf[s.idOf[n]] == n)
    && (forall i :: i in s.nameOf ==> s.nameOf[i] in s.idOf && s.idOf[s.nameOf[i]] == i)
  }

  /** Every id below the limit is either live or on the free list, once. */
  ghost predicate Partitioned(s: Space) {
    && (forall i: nat :: i < s.limit <==> i in s.nameOf || i in s.freeIds)
    && (forall i :: i in s.freeIds ==> i !in s.nameOf)
    && NoDuplicates(s.freeIds)
  }

  ghost predicate Sound(s: Space) {
    MutuallyInverse(s) && Partitioned(s) && s.count == |s.nameOf| && s.limit <= LITERAL_FIRST_ID
  }

  /** Whether the next allocation succeeds. */
  predicate HasRoom(s: Space) {
    s.freeIds != [] || s.limit + 1 < LITERAL_FIRST_ID
  }

  function NextId(s: Space): nat {
    if s.freeIds == [] then s.limit else s.freeIds[0]
  }

  function Allocated(s: Space): Space {
    if s.freeIds != [] then s.(freeIds := s.freeIds[1..], count := s.count + 1)
    else if HasRoom(s) then s.(limit := s.limit + 1, count := s.count + 1)
    else s.(limit := s.limit + 1)
  }

  function Freed(s: Space, id: nat): Space {
    if id + 1 == s.limit then s.(limit := s.limit - 1, count := s.count - 1)
    else s.(freeIds := [id] + s.freeIds, count := s.count - 1)
  }

  function Bound(s: Space, name: string, id: nat): Space {
    s.(idOf := s.idOf[name := id], nameOf := s.nameOf[id := name])
  }

  function Unbound(s: Space, name: string, id: nat): Space {
    s.(idOf := s.idOf - {name}, nameOf := s.nameOf - {id})
  }

  /** Looking a name up, giving it an id if it has none. */
  function Resolved(s: Space, name: string): Space {
    if name in s.idOf then s else Bound(Allocated(s), name, NextId(s))
  }

  function Dropped(s: Space, name: string, id: nat): Space {
    Freed(Unbound(s, name, id), id)
  }

  /** Every word of one state still has its id in another. */
  ghost predicate KeepsNames(s: Space, t: Space) {
    forall n :: n in s.idOf ==> n in t.idOf && t.idOf[n] == s.idOf[n]
  }

  /** Every id live in the second state has the word it had in the first. */
  ghost predicate FewerNames(s: Space, t: Space) {
    forall i :: i in t.nameOf ==> i in s.nameOf && s.nameOf[i] == t.nameOf[i]
  }

  lemma AddedCard(m: map<nat, string>, id: nat, name: string)
    requires id !in m
    ensures |m[id := name]| == |m| + 1
  {
    assert m[id := name].Keys == m.Keys + {id};
    assert |m[id := name].Keys| == |m[id := name]| && |m.Keys| == |m|;
  }

  lemma RemovedCard(m: map<nat, string>, id: nat)
    requires id in m
    ensures |m - {id}| == |m| - 1
  {
    assert (m - {id}).Keys == m.Keys - {id};
    assert |(m - {id}).Keys| == |m - {id}| && |m.Keys| == |m|;
  }

  lemma NextIdFresh(s: Space)
    requires Sound(s) && HasRoom(s)
    ensures NextId(s) !in s.nameOf && NextId(s) + 1 < LITERAL_FIRST_ID + 1
    ensures Allocated(s).limit <= LITERAL_FIRST_ID && Allocated(s).count == s.count + 1
    ensures NoDuplicates(Allocated(s).freeIds)
    ensures forall i: nat :: i in Allocated(s).freeIds <==> i in s.freeIds && i != NextId(s)
    ensures Allocated(s).limit == if s.freeIds == [] then s.limit + 1 else s.limit
  {
    if s.freeIds != [] {
      assert s.freeIds == [s.freeIds[0]] + s.freeIds[1..];
      assert s.freeIds[0] in s.freeIds;
    }
  }

  lemma BoundInverse(s: Space, name: string, id: nat)
    requires MutuallyInverse(s) && name !in s.idOf && id !in s.nameOf
    ensures MutuallyInverse(Bound(Allocated(s), name, id))
  {
    assert forall n :: n in s.idOf ==> s.idOf[n] != id;
  }

  lemma BoundPartition(s: Space, name: string)
    requires Sound(s) && HasRoom(s)
    ensures Partitioned(Bound(Allocated(s), name, NextId(s)))
  {
    NextIdFresh(s);
  }

  lemma BoundSound(s: Space, name: string)
    requires Sound(s) && HasRoom(s) && name !in s.idOf
    ensures Sound(Bound(Allocated(s), name, NextId(s)))
  {
    NextIdFresh(s);
    AddedCard(s.nameOf, NextId(s), name);
    BoundInverse(s, name, NextId(s));
    BoundPartition(s, name);
  }

  lemma BoundNames(s: Space, name: string, id: nat)
    requires name !in s.idOf
    ensures KeepsNames(s, Bound(Allocated(s), name, id)) && Bound(Allocated(s), name, id).nameOf.Keys == s.nameOf.Keys + {id}
  {
  }

  /** Resolving a word keeps the space sound and all words; an unknown word gets an id that was not live. */
  lemma ResolvedSound(s: Space, name: string)
    requires Sound(s) && (name in s.idOf || HasRoom(s))
    ensures Sound(Resolved(s, name)) && KeepsNames(s, Resolved(s, name)) && name in Resolved(s, name).idOf
    ensures name !in s.idOf ==> Resolved(s, name).idOf[name] == NextId(s) && NextId(s) !in s.nameOf
    ensures Resolved(s, name).nameOf.Keys == s.nameOf.Keys + {Resolved(s, name).idOf[name]}
  {
    if name !in s.idOf {
      BoundSound(s, name);
      NextIdFresh(s);
      BoundNames(s, name, NextId(s));
    } else {
      KnownName(s, name);
    }
  }

  lemma KnownName(s: Space, name: string)
    requires MutuallyInverse(s) && name in s.idOf
    ensures s.nameOf.Keys == s.nameOf.Keys + {s.idOf[name]} && KeepsNames(s, s)
  {
  }

  lemma FreedPartition(s: Space, id: nat)
    requires Partitioned(s) && id in s.nameOf
    ensures Partitioned(Freed(s.(nameOf := s.nameOf - {id}), id))
  {
    var t := Freed(s.(nameOf := s.nameOf - {id}), id);
    assert id < s.limit && id !in s.freeIds;
    if id + 1 != s.limit {
      assert forall i: nat :: i in t.freeIds <==> i == id || i in s.freeIds;
    } else {
      assert forall i :: i in s.freeIds ==> i < s.limit;
    }
  }

  /** An id given back is the next one served, unless it was the highest one and others are free; serving it undoes the giving back. */
  lemma GivenBackIff(s: Space, id: nat)
    requires Partitioned(s) && id in s.nameOf
    ensures NextId(Freed(s, id)) == id <==> id + 1 != s.limit || s.freeIds == []
    ensures NextId(Freed(s, id)) == id && s.limit < LITERAL_FIRST_ID ==> Allocated(Freed(s, id)) == s
  {
    assert id < s.limit;
    if s.freeIds != [] {
      assert s.freeIds[0] in s.freeIds;
    }
  }

  lemma DroppedInverse(s: Space, name: string)
    requires MutuallyInverse(s) && name in s.idOf
    ensures MutuallyInverse(Dropped(s, name, s.idOf[name]))
  {
    assert forall n :: n in Dropped(s, name, s.idOf[name]).idOf ==> n != name && s.idOf[n] != s.idOf[name];
  }

  lemma DroppedSound(s: Space, name: string)
    requires Sound(s) && name in s.idOf
    ensures Sound(Dropped(s, name, s.idOf[name])) && FewerNames(s, Dropped(s, name, s.idOf[name]))
    ensures Dropped(s, name, s.idOf[name]).nameOf.Keys == s.nameOf.Keys - {s.idOf[name]}
  {
    var id := s.idOf[name];
    RemovedCard(s.nameOf, id);
    FreedPartition(s, id);
    DroppedInverse(s, name);
    assert Dropped(s, name, id).freeIds == Freed(s.(nameOf := s.nameOf - {id}), id).freeIds;
  }

  /** A word is forgotten unless its id is still in use. */
  function Swept(s: Space, name: string, used: set<nat>): Space
    requires name in s.idOf
  {
    if s.idOf[name] in used then s else Dropped(s, name, s.idOf[name])
  }

  lemma SweptSound(s: Space, name: string, used: set<nat>)
    requires Sound(s) && name in s.idOf
    ensures Sound(Swept(s, name, used)) && FewerNames(s, Swept(s, name, used))
    ensures Swept(s, name, used).nameOf.Keys == s.nameOf.Keys - ({s.idOf[name]} - used)
    ensures forall n :: n in s.idOf && n != name ==> n in Swept(s, name, used).idOf && Swept(s, name, used).idOf[n] == s.idOf[n]
  {
    DroppedSound(s, name);
  }

  /** Dropping a live name twice always leaves a broken space: the counter is one too low. */
  lemma DroppedTwiceUnsound(s: Space, name: string)
    requires Sound(s) && name in s.idOf
    ensures var id := s.idOf[name]; !Sound(Dropped(Dropped(s, name, id), name, id))
  {
    var id := s.idOf[name];
    DroppedSound(s, name);
    var once := Dropped(s, name, id);
    assert once.nameOf - {id} == once.nameOf;
  }

  /** With no live id the whole range is free, so the allocator can start over. */
  lemma EmptySpaceResets(s: Space)
    requires Sound(s) && s.nameOf == map[]
    ensures s.idOf == map[] && s.count == 0 && Sound(s.(limit := 0, freeIds := []))
  {
    assert forall name :: name in s.idOf ==> s.idOf[name] in s.nameOf;
  }

  class IdSpace {
    var limit: nat
    var freeIds: seq<nat>
    var count: int
    var idOf: map<string, nat>
    var nameOf: map<nat, string>

    ghost function Value(): Space
      reads this
    {
      Space(limit, freeIds, count, idOf, nameOf)
    }

    constructor ()
      ensures Value() == Space(0, [], 0, map[], map[]) && Sound(Value())
    {
      limit, freeIds, count, idOf, nameOf := 0, [], 0, map[], map[];
    }

    /** Serves the head of the free list, or the next id never used; fails once the range is used up. */
    method Alloc() returns (id: Option<nat>)
      modifies this
      ensures Value() == Allocated(old(Value()))
      ensures id == if HasRoom(old(Value())) then Some(NextId(old(Value()))) else None
      ensures old(freeIds) != [] ==> id == Some(old(freeIds)[0]) && freeIds == old(freeIds)[1..] && limit == old(limit)
      ensures old(freeIds) == [] ==> id == (if limit < LITERAL_FIRST_ID then Some(old(limit)) else None) && freeIds == [] && limit == old(limit) + 1
      ensures count == old(count) + (if id.Some? then 1 else 0) && idOf == old(idOf) && nameOf == old(nameOf)
    {
      var t := 0;
      if freeIds == [] {
        t := limit;
        limit := limit + 1;
        if limit >= LITERAL_FIRST_ID {
          return None;
        }
      } else {
        t := freeIds[0];
        freeIds := freeIds[1..];
      }
      count := count + 1;
      return Some(t);
    }

    method Free(id: nat)
      modifies this
      ensures Value() == Freed(old(Value()), id)
      ensures id + 1 == old(limit) ==> limit == id && freeIds == old(freeIds)
      ensures id + 1 != old(limit) ==> limit == old(limit) && freeIds == [id] + old(freeIds)
      ensures count == old(count) - 1 && idOf == old(idOf) && nameOf == old(nameOf)
    {
      if id + 1 == limit {
        limit := limit - 1;
      } else {
        freeIds := [id] + freeIds;
      }
      count := count - 1;
    }

    /** Looks a name up, and allocates an id for it if it has none. */
    method Resolve(name: string) returns (id: nat, isNew: bool)
      requires name in idOf || HasRoom(Value())
      modifies this
      ensures Value() == Resolved(old(Value()), name)
      ensures name in idOf && id == idOf[name]
      ensures isNew <==> name !in old(idOf)
    {
      if name in idOf {
        return idOf[name], false;
      }
      var given := Alloc();
      id := given.value;
      idOf := idOf[name := id];
      nameOf := nameOf[id := name];
      isNew := true;
    }

    /** Forgets a name and gives its id back. */
    method Drop(name: string, id: nat)
      modifies this
      ensures Value() == Dropped(old(Value()), name, id)
    {
      nameOf := nameOf - {id};
      idOf := idOf - {name};
      Free(id);
    }

    method Reset()
      modifies this
      ensures Value() == old(Value()).(limit := 0, freeIds := [])
    {
      limit := 0;
      freeIds := [];
    }
  }
}
