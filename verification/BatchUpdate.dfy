/**
 Batch maintenance of the three triple indexes: a batch is sorted three times, and each pass collects the
 pairs of one key after the other and hands every key to its index once.
 */
module BatchUpdate {
  import opened Rdf

  /** The three passes: which id is the key of the index, and which two are stored under it. */
  datatype Order = SPO | PSO | OPS

  datatype Mode = INSERT | REMOVE

  type Pair = (nat, nat)

  type Index = map<nat, set<Pair>>

  function KeyOf(o: Order, t: Triple): nat {
    match o
    case SPO => t.s
    case PSO => t.p
    case OPS => t.o
  }

  function PairOf(o: Order, t: Triple): Pair {
    match o
    case SPO => (t.p, t.o)
    case PSO => (t.s, t.o)
    case OPS => (t.p, t.s)
  }

  function TripleOf(o: Order, k: nat, pair: Pair): (t: Triple)
    ensures KeyOf(o, t) == k && PairOf(o, t) == pair
  {
    match o
    case SPO => Triple(k, pair.0, pair.1)
    case PSO => Triple(pair.0, k, pair.1)
    case OPS => Triple(pair.1, pair.0, k)
  }

  predicate PairLess(a: Pair, b: Pair) {
    a.0 < b.0 || (a.0 == b.0 && a.1 < b.1)
  }

  /** The comparison functions of the three sorts. */
  predicate Less(o: Order, a: Triple, b: Triple) {
    KeyOf(o, a) < KeyOf(o, b) || (KeyOf(o, a) == KeyOf(o, b) && PairLess(PairOf(o, a), PairOf(o, b)))
  }

  ghost predicate Ascending(o: Order, ts: seq<Triple>) {
    forall i, j :: 0 <= i < j < |ts| ==> Less(o, ts[i], ts[j])
  }

  ghost predicate PairsAscending(data: seq<Pair>) {
    forall i, j :: 0 <= i < j < |data| ==> PairLess(data[i], data[j])
  }

  function Elements(ts: seq<Triple>): set<Triple> {
    set t | t in ts
  }

  // ---- sorting ----

  function PutInOrder(o: Order, t: Triple, ts: seq<Triple>): seq<Triple> {
    if ts == [] || Less(o, t, ts[0]) then [t] + ts
    else if ts[0] == t then ts
    else [ts[0]] + PutInOrder(o, t, ts[1..])
  }

  /** What sorting and dropping equal neighbours makes of a batch. */
  function SortedBatch(o: Order, ts: seq<Triple>): seq<Triple> {
    if ts == [] then [] else PutInOrder(o, ts[0], SortedBatch(o, ts[1..]))
  }

  lemma Comparable(o: Order, a: Triple, b: Triple)
    ensures Less(o, a, b) || a == b || Less(o, b, a)
  {
    assert a == TripleOf(o, KeyOf(o, a), PairOf(o, a));
    assert b == TripleOf(o, KeyOf(o, b), PairOf(o, b));
  }

  lemma ElementsCons(t: Triple, ts: seq<Triple>)
    ensures Elements([t] + ts) == Elements(ts) + {t}
  {
  }

  lemma {:induction false} PutInOrderElements(o: Order, t: Triple, ts: seq<Triple>)
    ensures Elements(PutInOrder(o, t, ts)) == Elements(ts) + {t}
  {
    if ts == [] || Less(o, t, ts[0]) {
      ElementsCons(t, ts);
    } else if ts[0] == t {
      assert Elements(ts) + {t} == Elements(ts);
    } else {
      PutInOrderElements(o, t, ts[1..]);
      ElementsCons(ts[0], ts[1..]);
      ElementsCons(ts[0], PutInOrder(o, t, ts[1..]));
      assert ts == [ts[0]] + ts[1..];
    }
  }

  lemma {:induction false} PutInOrderSorted(o: Order, t: Triple, ts: seq<Triple>)
    requires Ascending(o, ts)
    ensures Ascending(o, PutInOrder(o, t, ts))
  {
    if ts != [] && !Less(o, t, ts[0]) && ts[0] != t {
      PutInOrderSorted(o, t, ts[1..]);
      PutInOrderElements(o, t, ts[1..]);
      Comparable(o, t, ts[0]);
      var rest := PutInOrder(o, t, ts[1..]);
      forall j | 0 <= j < |rest| ensures Less(o, ts[0], rest[j]) {
        assert rest[j] in Elements(rest);
      }
    }
  }

  lemma {:induction false} SortedBatchSorted(o: Order, ts: seq<Triple>)
    ensures Ascending(o, SortedBatch(o, ts)) && Elements(SortedBatch(o, ts)) == Elements(ts)
  {
    if ts == [] {
      assert SortedBatch(o, ts) == ts;
    } else {
      SortedBatchSorted(o, ts[1..]);
      PutInOrderSorted(o, ts[0], SortedBatch(o, ts[1..]));
      PutInOrderElements(o, ts[0], SortedBatch(o, ts[1..]));
      ElementsCons(ts[0], ts[1..]);
      assert ts == [ts[0]] + ts[1..];
    }
  }

  // ---- one key of an index ----

  function Under(index: Index, k: nat): set<Pair> {
    if k in index then index[k] else {}
  }

  function PairSet(data: seq<Pair>): set<Pair> {
    set p | p in data
  }

  /** An index after one key has been updated; a key without pairs is dropped. */
  function Flushed(mode: Mode, index: Index, k: nat, data: seq<Pair>): Index {
    if mode == INSERT then index[k := Under(index, k) + PairSet(data)]
    else if Under(index, k) - PairSet(data) == {} then index - {k}
    else index[k := Under(index, k) - PairSet(data)]
  }

  /** How many pairs the update adds or takes away. */
  function Changed(mode: Mode, index: Index, k: nat, data: seq<Pair>): nat {
    if mode == INSERT then |PairSet(data) - Under(index, k)| else |PairSet(data) * Under(index, k)|
  }

  /** The index stores exactly the triples of a set. */
  ghost predicate Denotes(o: Order, index: Index, g: Store) {
    forall t :: t in g <==> PairOf(o, t) in Under(index, KeyOf(o, t))
  }

  function After(mode: Mode, g: Store, batch: set<Triple>): Store {
    if mode == INSERT then g + batch else g - batch
  }

  function Effective(mode: Mode, g: Store, batch: set<Triple>): set<Triple> {
    if mode == INSERT then batch - g else batch * g
  }

  function Stored(o: Order, k: nat, pairs: set<Pair>): set<Triple> {
    set p | p in pairs :: TripleOf(o, k, p)
  }

  lemma {:induction false} SameSize(o: Order, k: nat, pairs: set<Pair>)
    ensures |Stored(o, k, pairs)| == |pairs|
  {
    if pairs != {} {
      var p :| p in pairs;
      SameSize(o, k, pairs - {p});
      assert Stored(o, k, pairs) == Stored(o, k, pairs - {p}) + {TripleOf(o, k, p)};
      assert TripleOf(o, k, p) !in Stored(o, k, pairs - {p});
    } else {
      assert Stored(o, k, pairs) == {};
    }
  }

  lemma InStored(o: Order, k: nat, pairs: set<Pair>, t: Triple)
    ensures t in Stored(o, k, pairs) <==> KeyOf(o, t) == k && PairOf(o, t) in pairs
  {
    assert t == TripleOf(o, KeyOf(o, t), PairOf(o, t));
  }

  lemma FlushedUnder(mode: Mode, index: Index, k: nat, data: seq<Pair>, k': nat)
    ensures Under(Flushed(mode, index, k, data), k') ==
              if k' != k then Under(index, k')
              else if mode == INSERT then Under(index, k) + PairSet(data) else Under(index, k) - PairSet(data)
  {
  }

  lemma FlushedDenotes(o: Order, mode: Mode, index: Index, g: Store, k: nat, data: seq<Pair>)
    requires Denotes(o, index, g)
    ensures Denotes(o, Flushed(mode, index, k, data), After(mode, g, Stored(o, k, PairSet(data))))
  {
    forall t ensures t in After(mode, g, Stored(o, k, PairSet(data))) <==> PairOf(o, t) in Under(Flushed(mode, index, k, data), KeyOf(o, t)) {
      InStored(o, k, PairSet(data), t);
      FlushedUnder(mode, index, k, data, KeyOf(o, t));
    }
  }

  lemma ChangedIsEffective(o: Order, mode: Mode, index: Index, g: Store, k: nat, data: seq<Pair>)
    requires Denotes(o, index, g)
    ensures Changed(mode, index, k, data) == |Effective(mode, g, Stored(o, k, PairSet(data)))|
  {
    var changed := if mode == INSERT then PairSet(data) - Under(index, k) else PairSet(data) * Under(index, k);
    SameSize(o, k, changed);
    forall t ensures t in Effective(mode, g, Stored(o, k, PairSet(data))) <==> t in Stored(o, k, changed) {
      InStored(o, k, PairSet(data), t);
      InStored(o, k, changed, t);
    }
    assert Effective(mode, g, Stored(o, k, PairSet(data))) == Stored(o, k, changed);
  }

  // ---- the groups of one pass ----

  datatype Group = Group(key: nat, data: seq<Pair>)

  /** One more triple extends the last group or opens a new one. */
  function Grouped(o: Order, before: seq<Group>, t: Triple): seq<Group> {
    if before != [] && before[|before| - 1].key == KeyOf(o, t) then
      before[..|before| - 1] + [Group(KeyOf(o, t), before[|before| - 1].data + [PairOf(o, t)])]
    else before + [Group(KeyOf(o, t), [PairOf(o, t)])]
  }

  /** The runs of equal keys in a list, each with its pairs in order. */
  function Groups(o: Order, ts: seq<Triple>): seq<Group> {
    if ts == [] then [] else Grouped(o, Groups(o, ts[..|ts| - 1]), ts[|ts| - 1])
  }

  function FlushAll(mode: Mode, index: Index, groups: seq<Group>): Index {
    if groups == [] then index else
      var last := groups[|groups| - 1];
      Flushed(mode, FlushAll(mode, index, groups[..|groups| - 1]), last.key, last.data)
  }

  function ChangedAll(mode: Mode, index: Index, groups: seq<Group>): nat {
    if groups == [] then 0 else
      var before, last := groups[..|groups| - 1], groups[|groups| - 1];
      ChangedAll(mode, index, before) + Changed(mode, FlushAll(mode, index, before), last.key, last.data)
  }

  function Collected(o: Order, groups: seq<Group>): set<Triple> {
    if groups == [] then {} else
      Collected(o, groups[..|groups| - 1]) + Stored(o, groups[|groups| - 1].key, PairSet(groups[|groups| - 1].data))
  }

  lemma AfterTwice(mode: Mode, g: Store, c: set<Triple>, b: set<Triple>)
    ensures After(mode, After(mode, g, c), b) == After(mode, g, c + b)
  {
  }

  lemma NothingToDo(mode: Mode, g: Store)
    ensures After(mode, g, {}) == g && |Effective(mode, g, {})| == 0
  {
    assert Effective(mode, g, {}) == {};
  }

  lemma {:induction false} FlushAllMeaning(o: Order, mode: Mode, index: Index, g: Store, groups: seq<Group>)
    requires Denotes(o, index, g)
    ensures Denotes(o, FlushAll(mode, index, groups), After(mode, g, Collected(o, groups)))
    ensures ChangedAll(mode, index, groups) == |Effective(mode, g, Collected(o, groups))|
  {
    if groups == [] {
      NothingToDo(mode, g);
    } else {
      var before, last := groups[..|groups| - 1], groups[|groups| - 1];
      FlushAllMeaning(o, mode, index, g, before);
      FlushOneMore(o, mode, FlushAll(mode, index, before), g, Collected(o, before), last);
    }
  }

  lemma FlushOneMore(o: Order, mode: Mode, index: Index, g: Store, c: set<Triple>, last: Group)
    requires Denotes(o, index, After(mode, g, c))
    ensures var b := Stored(o, last.key, PairSet(last.data));
            && Denotes(o, Flushed(mode, index, last.key, last.data), After(mode, g, c + b))
            && |Effective(mode, g, c)| + Changed(mode, index, last.key, last.data) == |Effective(mode, g, c + b)|
  {
    var b := Stored(o, last.key, PairSet(last.data));
    FlushedDenotes(o, mode, index, After(mode, g, c), last.key, last.data);
    AfterTwice(mode, g, c, b);
    ChangedIsEffective(o, mode, index, After(mode, g, c), last.key, last.data);
    EffectiveTwice(mode, g, c, b);
  }

  /** A second batch changes what the two together change beyond the first. */
  lemma EffectiveTwice(mode: Mode, g: Store, c: set<Triple>, b: set<Triple>)
    ensures |Effective(mode, g, c)| + |Effective(mode, After(mode, g, c), b)| == |Effective(mode, g, c + b)|
  {
    var first, second := Effective(mode, g, c), Effective(mode, After(mode, g, c), b);
    assert Effective(mode, g, c + b) == first + second;
    assert first * second == {};
  }

  lemma ElementsSnoc(ts: seq<Triple>)
    requires ts != []
    ensures Elements(ts) == Elements(ts[..|ts| - 1]) + {ts[|ts| - 1]}
  {
    assert ts == ts[..|ts| - 1] + [ts[|ts| - 1]];
  }

  lemma {:induction false} CollectedAll(o: Order, ts: seq<Triple>)
    ensures Collected(o, Groups(o, ts)) == Elements(ts)
  {
    if ts != [] {
      CollectedAll(o, ts[..|ts| - 1]);
      ElementsSnoc(ts);
      CollectedGrows(o, Groups(o, ts[..|ts| - 1]), ts[|ts| - 1]);
    }
  }

  lemma CollectedSnoc(o: Order, before: seq<Group>, last: Group)
    ensures Collected(o, before + [last]) == Collected(o, before) + Stored(o, last.key, PairSet(last.data))
  {
    assert (before + [last])[..|before|] == before;
  }

  lemma StoredSnoc(o: Order, data: seq<Pair>, t: Triple)
    ensures Stored(o, KeyOf(o, t), PairSet(data + [PairOf(o, t)])) == Stored(o, KeyOf(o, t), PairSet(data)) + {t}
  {
    assert t == TripleOf(o, KeyOf(o, t), PairOf(o, t));
    assert PairSet(data + [PairOf(o, t)]) == PairSet(data) + {PairOf(o, t)};
  }

  lemma CollectedGrows(o: Order, before: seq<Group>, t: Triple)
    ensures Collected(o, Grouped(o, before, t)) == Collected(o, before) + {t}
  {
    var k := KeyOf(o, t);
    if before != [] && before[|before| - 1].key == k {
      var init, last := before[..|before| - 1], before[|before| - 1];
      assert before == init + [last];
      CollectedSnoc(o, init, last);
      CollectedSnoc(o, init, Group(k, last.data + [PairOf(o, t)]));
      StoredSnoc(o, last.data, t);
    } else {
      CollectedSnoc(o, before, Group(k, [PairOf(o, t)]));
      StoredSnoc(o, [], t);
      assert [] + [PairOf(o, t)] == [PairOf(o, t)];
      assert Stored(o, k, PairSet([])) == {};
    }
  }

  // ---- each key once, with exactly its pairs ----

  /** The pairs a list has for one key, in the order of the list. */
  function Selected(o: Order, k: nat, ts: seq<Triple>): seq<Pair> {
    if ts == [] then [] else
      Selected(o, k, ts[..|ts| - 1]) + (if KeyOf(o, ts[|ts| - 1]) == k then [PairOf(o, ts[|ts| - 1])] else [])
  }

  ghost predicate KeysIncreasing(groups: seq<Group>) {
    forall i, j :: 0 <= i < j < |groups| ==> groups[i].key < groups[j].key
  }

  ghost predicate ExactGroups(o: Order, ts: seq<Triple>, groups: seq<Group>) {
    forall i :: 0 <= i < |groups| ==> groups[i].data == Selected(o, groups[i].key, ts)
  }

  lemma {:induction false} NothingSelected(o: Order, k: nat, ts: seq<Triple>)
    requires forall i :: 0 <= i < |ts| ==> KeyOf(o, ts[i]) != k
    ensures Selected(o, k, ts) == []
  {
    if ts != [] {
      NothingSelected(o, k, ts[..|ts| - 1]);
    }
  }

  lemma SelectedSnoc(o: Order, k: nat, init: seq<Triple>, t: Triple)
    ensures Selected(o, k, init + [t]) == Selected(o, k, init) + (if KeyOf(o, t) == k then [PairOf(o, t)] else [])
  {
    assert (init + [t])[..|init|] == init;
  }

  lemma KeysGrown(o: Order, before: seq<Group>, t: Triple)
    requires KeysIncreasing(before) && (before != [] ==> before[|before| - 1].key <= KeyOf(o, t))
    ensures var after := Grouped(o, before, t);
            KeysIncreasing(after) && after != [] && after[|after| - 1].key == KeyOf(o, t)
  {
  }

  lemma {:induction false} GroupKeys(o: Order, ts: seq<Triple>)
    requires Ascending(o, ts)
    ensures KeysIncreasing(Groups(o, ts))
    ensures ts != [] ==> Groups(o, ts) != [] && Groups(o, ts)[|Groups(o, ts)| - 1].key == KeyOf(o, ts[|ts| - 1])
  {
    if ts != [] {
      var init, t := ts[..|ts| - 1], ts[|ts| - 1];
      GroupKeys(o, init);
      if init != [] {
        assert Less(o, init[|init| - 1], t);
      }
      KeysGrown(o, Groups(o, init), t);
    }
  }

  lemma GroupedExact(o: Order, init: seq<Triple>, t: Triple, before: seq<Group>)
    requires KeysIncreasing(before) && ExactGroups(o, init, before)
    requires before != [] ==> before[|before| - 1].key <= KeyOf(o, t)
    requires (before == [] || before[|before| - 1].key != KeyOf(o, t)) ==> Selected(o, KeyOf(o, t), init) == []
    ensures ExactGroups(o, init + [t], Grouped(o, before, t))
  {
    var after := Grouped(o, before, t);
    forall i | 0 <= i < |after| ensures after[i].data == Selected(o, after[i].key, init + [t]) {
      SelectedSnoc(o, after[i].key, init, t);
      if i < |after| - 1 {
        assert after[i] == before[i];
        assert after[i].key < KeyOf(o, t);
      }
    }
  }

  lemma NewKeySelectsNothing(o: Order, init: seq<Triple>, t: Triple)
    requires Ascending(o, init + [t])
    ensures init == [] ==> Selected(o, KeyOf(o, t), init) == []
    ensures init != [] ==> KeyOf(o, init[|init| - 1]) <= KeyOf(o, t)
    ensures init != [] && KeyOf(o, init[|init| - 1]) != KeyOf(o, t) ==> Selected(o, KeyOf(o, t), init) == []
  {
    if init != [] {
      var all, last := init + [t], |init| - 1;
      KeysUpTo(o, all, last, last + 1);
      if KeyOf(o, init[last]) != KeyOf(o, t) {
        forall i | 0 <= i < |init| ensures KeyOf(o, init[i]) != KeyOf(o, t) {
          KeysUpTo(o, all, i, last);
        }
        NothingSelected(o, KeyOf(o, t), init);
      }
    }
  }

  lemma KeysUpTo(o: Order, ts: seq<Triple>, i: nat, k: nat)
    requires Ascending(o, ts) && i <= k < |ts|
    ensures KeyOf(o, ts[i]) <= KeyOf(o, ts[k])
  {
    if i < k {
      assert Less(o, ts[i], ts[k]);
    }
  }

  lemma LastKeyBefore(o: Order, init: seq<Triple>, t: Triple)
    requires Ascending(o, init + [t])
    ensures var before := Groups(o, init);
            && (before != [] ==> before[|before| - 1].key <= KeyOf(o, t))
            && (before == [] || before[|before| - 1].key != KeyOf(o, t) ==> Selected(o, KeyOf(o, t), init) == [])
  {
    assert Ascending(o, init) by {
      assert (init + [t])[..|init|] == init;
    }
    GroupKeys(o, init);
    NewKeySelectsNothing(o, init, t);
  }

  /**
   In a sorted batch every key has one group, the groups come by increasing key, and the group of a key
   holds exactly its pairs.
   */
  lemma {:induction false} GroupsExact(o: Order, ts: seq<Triple>)
    requires Ascending(o, ts)
    ensures KeysIncreasing(Groups(o, ts)) && ExactGroups(o, ts, Groups(o, ts))
  {
    if ts != [] {
      var init, t := ts[..|ts| - 1], ts[|ts| - 1];
      assert ts == init + [t];
      GroupsExact(o, init);
      LastKeyBefore(o, init, t);
      GroupedExact(o, init, t, Groups(o, init));
    }
    assert KeysIncreasing(Groups(o, ts)) by {
      GroupKeys(o, ts);
    }
  }

  lemma {:induction false} SelectedAscending(o: Order, k: nat, ts: seq<Triple>)
    requires Ascending(o, ts)
    ensures PairsAscending(Selected(o, k, ts))
    ensures forall p :: p in Selected(o, k, ts) ==> TripleOf(o, k, p) in ts
  {
    if ts != [] {
      var init, t := ts[..|ts| - 1], ts[|ts| - 1];
      SelectedAscending(o, k, init);
      assert t == TripleOf(o, KeyOf(o, t), PairOf(o, t));
      var s := Selected(o, k, init);
      if KeyOf(o, t) == k {
        forall i | 0 <= i < |s| ensures PairLess(s[i], PairOf(o, t)) {
          assert s[i] in s;
          assert TripleOf(o, k, s[i]) in init;
        }
      }
    }
  }

  // ---- the indexes ----

  datatype Three = Three(subjects: Index, predicates: Index, objects: Index) {
    function Of(o: Order): Index {
      match o
      case SPO => subjects
      case PSO => predicates
      case OPS => objects
    }

    function With(o: Order, index: Index): Three {
      match o
      case SPO => this.(subjects := index)
      case PSO => this.(predicates := index)
      case OPS => this.(objects := index)
    }

    /** All three indexes denote one set of triples. */
    ghost predicate Denote(g: Store) {
      Denotes(SPO, subjects, g) && Denotes(PSO, predicates, g) && Denotes(OPS, objects, g)
    }

    /** No index keeps a key that nothing is stored under. */
    ghost predicate NoKeyEmpty() {
      Filled(subjects) && Filled(predicates) && Filled(objects)
    }
  }

  class TripleIndexes {
    var subjects: Index
    var predicates: Index
    var objects: Index

    function State(): Three
      reads this
    {
      Three(subjects, predicates, objects)
    }

    constructor ()
      ensures State().Denote({}) && State().NoKeyEmpty()
    {
      subjects, predicates, objects := map[], map[], map[];
    }

    /** Hands one key and its pairs, which come in increasing order, to its index. */
    method UpdateValues(o: Order, mode: Mode, k: nat, data: seq<Pair>) returns (n: nat)
      requires PairsAscending(data)
      modifies this
      ensures State() == old(State()).With(o, Flushed(mode, old(State()).Of(o), k, data))
      ensures n == Changed(mode, old(State()).Of(o), k, data)
    {
      n := Changed(mode, State().Of(o), k, data);
      var after := Flushed(mode, State().Of(o), k, data);
      match o {
        case SPO => subjects := after;
        case PSO => predicates := after;
        case OPS => objects := after;
      }
    }

    /** One pass over a sorted batch: the index of the pass gets the groups of the batch one after the other. */
    method SubBatchUpdate(idTuples: seq<Triple>, o: Order, mode: Mode) returns (updateNum: nat)
      requires idTuples != [] && Ascending(o, idTuples)
      modifies this
      ensures State() == old(State()).With(o, FlushAll(mode, old(State()).Of(o), Groups(o, idTuples)))
      ensures updateNum == ChangedAll(mode, old(State()).Of(o), Groups(o, idTuples))
    {
      updateNum := 0;
      var data: seq<Pair> := [];
      var key := KeyOf(o, idTuples[0]);
      ghost var before := State();
      ghost var flushed: seq<Group> := [];
      for i := 0 to |idTuples|
        invariant Collecting(o, idTuples, i, flushed, key, data)
        invariant PassSoFar(o, mode, before, flushed, State(), updateNum)
      {
        var t := idTuples[i];
        CollectingNext(o, idTuples, i, flushed, key, data);
        if KeyOf(o, t) == key {
          data := data + [PairOf(o, t)];
        } else {
          updateNum := FlushGroup(o, mode, key, data, updateNum, before, flushed);
          flushed := flushed + [Group(key, data)];
          key := KeyOf(o, t);
          data := [PairOf(o, t)];
        }
      }
      CollectingEnds(o, idTuples, flushed, key, data);
      updateNum := FlushGroup(o, mode, key, data, updateNum, before, flushed);
    }

    /** Hands the collected pairs of a key over to the index of the pass. */
    method FlushGroup(o: Order, mode: Mode, key: nat, data: seq<Pair>, updateNum: nat, ghost before: Three, ghost flushed: seq<Group>)
      returns (total: nat)
      requires PairsAscending(data) && PassSoFar(o, mode, before, flushed, State(), updateNum)
      modifies this
      ensures PassSoFar(o, mode, before, flushed + [Group(key, data)], State(), total)
    {
      PassOneMore(o, mode, before, flushed, State(), updateNum, Group(key, data));
      var n := UpdateValues(o, mode, key, data);
      total := updateNum + n;
    }

    /**
     Inserts or removes a batch: it is sorted and freed of repeats, and three passes update the indexes.
     They denote one set again, the old one with or without the batch, and all three passes count the
     triples that changed, so the two assertions that compare the counts hold.
     */
    method BatchUpdate(batch: seq<Triple>, mode: Mode, ghost g: Store) returns (updateNum: nat)
      requires State().Denote(g) && batch != []
      modifies this
      ensures State().Denote(if mode == INSERT then g + Elements(batch) else g - Elements(batch))
      ensures updateNum == if mode == INSERT then |Elements(batch) - g| else |Elements(batch) * g|
      ensures old(State()).NoKeyEmpty() ==> State().NoKeyEmpty()
    {
      var idTuples := SortedBatch(SPO, batch);
      ghost var before := State();
      SortedPasses(batch);
      var updateNumS := SubBatchUpdate(idTuples, SPO, mode);
      var updateNumP := SubBatchUpdate(SortedBatch(PSO, idTuples), PSO, mode);
      var updateNumO := SubBatchUpdate(SortedBatch(OPS, idTuples), OPS, mode);
      PassesMeaning(mode, before, g, batch, State(), updateNumS, updateNumP, updateNumO);
      GroupsFilled(SPO, idTuples);
      GroupsFilled(PSO, SortedBatch(PSO, idTuples));
      GroupsFilled(OPS, SortedBatch(OPS, idTuples));
      PassesFilled(mode, before, State(), Groups(SPO, idTuples), Groups(PSO, SortedBatch(PSO, idTuples)), Groups(OPS, SortedBatch(OPS, idTuples)));
      assert updateNumO == updateNumP;
      assert updateNumS == updateNumO;
      updateNum := updateNumS;
    }
  }

  /** Where a pass stands once some groups have been handed over. */
  ghost predicate PassSoFar(o: Order, mode: Mode, before: Three, flushed: seq<Group>, now: Three, updateNum: nat) {
    && now == before.With(o, FlushAll(mode, before.Of(o), flushed))
    && updateNum == ChangedAll(mode, before.Of(o), flushed)
  }

  lemma PassOneMore(o: Order, mode: Mode, before: Three, flushed: seq<Group>, now: Three, updateNum: nat, last: Group)
    requires PassSoFar(o, mode, before, flushed, now, updateNum)
    ensures PassSoFar(o, mode, before, flushed + [last], now.With(o, Flushed(mode, now.Of(o), last.key, last.data)),
                      updateNum + Changed(mode, now.Of(o), last.key, last.data))
  {
    FlushedOneMore(mode, before.Of(o), flushed, last);
  }

  /** The groups of the first triples are those handed over and the one being collected. */
  ghost predicate Collecting(o: Order, ts: seq<Triple>, i: nat, flushed: seq<Group>, key: nat, data: seq<Pair>)
    requires i <= |ts| && ts != []
  {
    if i == 0 then data == [] && flushed == [] && key == KeyOf(o, ts[0])
    else Groups(o, ts[..i]) == flushed + [Group(key, data)]
  }

  /** One more triple joins the data being collected, or closes them and opens the next key's. */
  lemma CollectingNext(o: Order, ts: seq<Triple>, i: nat, flushed: seq<Group>, key: nat, data: seq<Pair>)
    requires i < |ts| && Ascending(o, ts) && Collecting(o, ts, i, flushed, key, data)
    ensures KeyOf(o, ts[i]) == key ==> Collecting(o, ts, i + 1, flushed, key, data + [PairOf(o, ts[i])])
    ensures KeyOf(o, ts[i]) != key ==>
              PairsAscending(data) && Collecting(o, ts, i + 1, flushed + [Group(key, data)], KeyOf(o, ts[i]), [PairOf(o, ts[i])])
  {
    assert ts[..i + 1][..i] == ts[..i];
    if i == 0 {
      assert Groups(o, ts[..0]) == [];
      assert [] + [PairOf(o, ts[0])] == [PairOf(o, ts[0])];
    } else {
      assert (flushed + [Group(key, data)])[..|flushed|] == flushed;
      assert PairsAscending(data) by {
        LastGroupAscending(o, ts[..i], flushed, key, data);
      }
    }
  }

  lemma CollectingEnds(o: Order, ts: seq<Triple>, flushed: seq<Group>, key: nat, data: seq<Pair>)
    requires ts != [] && Ascending(o, ts) && Collecting(o, ts, |ts|, flushed, key, data)
    ensures PairsAscending(data) && Groups(o, ts) == flushed + [Group(key, data)]
  {
    assert ts[..|ts|] == ts;
    LastGroupAscending(o, ts, flushed, key, data);
  }

  lemma FlushedOneMore(mode: Mode, index: Index, groups: seq<Group>, last: Group)
    ensures FlushAll(mode, index, groups + [last]) == Flushed(mode, FlushAll(mode, index, groups), last.key, last.data)
    ensures ChangedAll(mode, index, groups + [last]) ==
              ChangedAll(mode, index, groups) + Changed(mode, FlushAll(mode, index, groups), last.key, last.data)
  {
    assert (groups + [last])[..|groups|] == groups;
  }

  lemma LastGroupAscending(o: Order, ts: seq<Triple>, flushed: seq<Group>, key: nat, data: seq<Pair>)
    requires Ascending(o, ts) && Groups(o, ts) == flushed + [Group(key, data)]
    ensures PairsAscending(data)
  {
    GroupsExact(o, ts);
    var last := Groups(o, ts)[|flushed|];
    assert last.data == Selected(o, key, ts);
    SelectedAscending(o, key, ts);
  }

  /** What a pass over a sorted list of some triples comes to. */
  ghost predicate PassDone(o: Order, mode: Mode, index: Index, g: Store, ts: seq<Triple>, triples: set<Triple>) {
    && ts != [] && Ascending(o, ts)
    && Denotes(o, FlushAll(mode, index, Groups(o, ts)), After(mode, g, triples))
    && ChangedAll(mode, index, Groups(o, ts)) == |Effective(mode, g, triples)|
  }

  /** A whole pass adds the batch to, or takes it out of, what the index denotes, and counts what changes. */
  lemma PassMeaning(o: Order, mode: Mode, index: Index, g: Store, batch: seq<Triple>)
    requires Denotes(o, index, g) && batch != []
    ensures PassDone(o, mode, index, g, SortedBatch(o, batch), Elements(batch))
    ensures Elements(SortedBatch(o, batch)) == Elements(batch)
  {
    var ts := SortedBatch(o, batch);
    SortedBatchSorted(o, batch);
    assert batch[0] in Elements(ts);
    CollectedAll(o, ts);
    FlushAllMeaning(o, mode, index, g, Groups(o, ts));
  }

  lemma ThreePasses(mode: Mode, three: Three, g: Store, batch: seq<Triple>)
    requires three.Denote(g) && batch != []
    ensures PassDone(SPO, mode, three.subjects, g, SortedBatch(SPO, batch), Elements(batch))
    ensures PassDone(PSO, mode, three.predicates, g, SortedBatch(PSO, SortedBatch(SPO, batch)), Elements(batch))
    ensures PassDone(OPS, mode, three.objects, g, SortedBatch(OPS, SortedBatch(SPO, batch)), Elements(batch))
  {
    PassMeaning(SPO, mode, three.subjects, g, batch);
    PassMeaning(PSO, mode, three.predicates, g, SortedBatch(SPO, batch));
    PassMeaning(OPS, mode, three.objects, g, SortedBatch(SPO, batch));
  }

  lemma SortedPasses(batch: seq<Triple>)
    requires batch != []
    ensures var first := SortedBatch(SPO, batch);
            && first != [] && Ascending(SPO, first)
            && SortedBatch(PSO, first) != [] && Ascending(PSO, SortedBatch(PSO, first))
            && SortedBatch(OPS, first) != [] && Ascending(OPS, SortedBatch(OPS, first))
  {
    SortedBatchSorted(SPO, batch);
    SortedBatchSorted(PSO, SortedBatch(SPO, batch));
    SortedBatchSorted(OPS, SortedBatch(SPO, batch));
  }

  /** The three passes together. */
  lemma PassesMeaning(mode: Mode, before: Three, g: Store, batch: seq<Triple>, now: Three, numS: nat, numP: nat, numO: nat)
    requires before.Denote(g) && batch != []
    requires var first := SortedBatch(SPO, batch);
             && now == Three(FlushAll(mode, before.subjects, Groups(SPO, first)),
                             FlushAll(mode, before.predicates, Groups(PSO, SortedBatch(PSO, first))),
                             FlushAll(mode, before.objects, Groups(OPS, SortedBatch(OPS, first))))
             && numS == ChangedAll(mode, before.subjects, Groups(SPO, first))
             && numP == ChangedAll(mode, before.predicates, Groups(PSO, SortedBatch(PSO, first)))
             && numO == ChangedAll(mode, before.objects, Groups(OPS, SortedBatch(OPS, first)))
    ensures now.Denote(After(mode, g, Elements(batch)))
    ensures numS == numP == numO == |Effective(mode, g, Elements(batch))|
  {
    ThreePasses(mode, before, g, batch);
  }

  // ---- what the indexes hold, entry by entry ----

  /** Three indexes denote a set of triples exactly if each lists the other two ids of every one of its triples, and no more. */
  lemma DenoteIff(three: Three, g: Store)
    ensures three.Denote(g) <==>
            forall s: nat, p: nat, o: nat ::
              && (Listed(three.subjects, s, (p, o)) <==> Triple(s, p, o) in g)
              && (Listed(three.predicates, p, (s, o)) <==> Triple(s, p, o) in g)
              && (Listed(three.objects, o, (p, s)) <==> Triple(s, p, o) in g)
  {
    forall t: Triple
      ensures Listed(three.subjects, t.s, (t.p, t.o)) <==> PairOf(SPO, t) in Under(three.subjects, KeyOf(SPO, t))
      ensures Listed(three.predicates, t.p, (t.s, t.o)) <==> PairOf(PSO, t) in Under(three.predicates, KeyOf(PSO, t))
      ensures Listed(three.objects, t.o, (t.p, t.s)) <==> PairOf(OPS, t) in Under(three.objects, KeyOf(OPS, t))
    {
    }
    if three.Denote(g) {
      forall s: nat, p: nat, o: nat
        ensures Listed(three.subjects, s, (p, o)) <==> Triple(s, p, o) in g
        ensures Listed(three.predicates, p, (s, o)) <==> Triple(s, p, o) in g
        ensures Listed(three.objects, o, (p, s)) <==> Triple(s, p, o) in g
      {
        var t := Triple(s, p, o);
        assert t.s == s && t.p == p && t.o == o;
      }
    }
  }

  predicate Listed(index: Index, k: nat, pair: Pair) {
    k in index && pair in index[k]
  }

  ghost predicate Filled(index: Index) {
    forall k :: k in index ==> index[k] != {}
  }

  ghost predicate NoGroupEmpty(groups: seq<Group>) {
    forall i :: 0 <= i < |groups| ==> groups[i].data != []
  }

  lemma {:induction false} GroupsFilled(o: Order, ts: seq<Triple>)
    ensures NoGroupEmpty(Groups(o, ts))
  {
    if ts != [] {
      GroupsFilled(o, ts[..|ts| - 1]);
    }
  }

  lemma {:induction false} FlushAllFilled(mode: Mode, index: Index, groups: seq<Group>)
    requires Filled(index) && NoGroupEmpty(groups)
    ensures Filled(FlushAll(mode, index, groups))
  {
    if groups != [] {
      var before, last := groups[..|groups| - 1], groups[|groups| - 1];
      FlushAllFilled(mode, index, before);
      assert last.data[0] in PairSet(last.data);
    }
  }

  /** A key that loses its last pair is dropped, and no key is added without a pair. */
  lemma PassesFilled(mode: Mode, before: Three, now: Three, s: seq<Group>, p: seq<Group>, o: seq<Group>)
    requires NoGroupEmpty(s) && NoGroupEmpty(p) && NoGroupEmpty(o)
    requires now == Three(FlushAll(mode, before.subjects, s), FlushAll(mode, before.predicates, p), FlushAll(mode, before.objects, o))
    ensures before.NoKeyEmpty() ==> now.NoKeyEmpty()
  {
    if before.NoKeyEmpty() {
      FlushAllFilled(mode, before.subjects, s);
      FlushAllFilled(mode, before.predicates, p);
      FlushAllFilled(mode, before.objects, o);
    }
  }
}
