/**
 The choice of predicates whose long lists are kept in memory: a queue that gives up its least valuable
 lists for a more valuable one, within a budget, in 32-bit arithmetic.
 */
module CacheSelection {

  const MAX_TOTAL_SIZE := 2_000_000_000
  const WORD := 0x1_0000_0000

  datatype Item = Item(key: nat, size: nat, value: nat)

  function Add32(a: nat, b: nat): nat {
    (a + b) % WORD
  }

  function Sub32(a: nat, b: nat): nat {
    (a - b) % WORD
  }

  /** Within the budget the 32-bit operations are the plain ones. */
  lemma NoWrap(a: nat, b: nat)
    ensures a < MAX_TOTAL_SIZE && b < MAX_TOTAL_SIZE ==> Add32(a, b) == a + b
    ensures b <= a < MAX_TOTAL_SIZE ==> Sub32(a, b) == a - b
  {
  }

  function Sum(q: seq<Item>): nat {
    if q == [] then 0 else Sum(q[..|q| - 1]) + q[|q| - 1].size
  }

  /** The sizes of the items at least as valuable as a given value. */
  function SumAtLeast(q: seq<Item>, value: nat): nat {
    if q == [] then 0 else
      SumAtLeast(q[..|q| - 1], value) + (if q[|q| - 1].value >= value then q[|q| - 1].size else 0)
  }

  function Without(q: seq<Item>, i: nat): seq<Item>
    requires i < |q|
  {
    q[..i] + q[i + 1..]
  }

  lemma SumSnoc(q: seq<Item>, x: Item, value: nat)
    ensures Sum(q + [x]) == Sum(q) + x.size
    ensures SumAtLeast(q + [x], value) == SumAtLeast(q, value) + (if x.value >= value then x.size else 0)
  {
    assert (q + [x])[..|q|] == q;
  }

  lemma {:induction false} SumWithout(q: seq<Item>, i: nat, value: nat)
    requires i < |q|
    ensures Sum(q) == Sum(Without(q, i)) + q[i].size
    ensures SumAtLeast(q, value) == SumAtLeast(Without(q, i), value) + (if q[i].value >= value then q[i].size else 0)
  {
    var init, last := q[..|q| - 1], q[|q| - 1];
    if i == |q| - 1 {
      assert Without(q, i) == init;
    } else {
      SumWithout(init, i, value);
      assert Without(q, i) == Without(init, i) + [last];
      SumSnoc(Without(init, i), last, value);
    }
  }

  lemma {:induction false} AllAtLeast(q: seq<Item>, value: nat)
    requires forall i :: 0 <= i < |q| ==> q[i].value >= value
    ensures SumAtLeast(q, value) == Sum(q)
  {
    if q != [] {
      AllAtLeast(q[..|q| - 1], value);
    }
  }

  lemma {:induction false} AtLeastBounded(q: seq<Item>, value: nat)
    ensures SumAtLeast(q, value) <= Sum(q)
  {
    if q != [] {
      AtLeastBounded(q[..|q| - 1], value);
    }
  }

  lemma WithoutMultiset(q: seq<Item>, i: nat)
    requires i < |q|
    ensures multiset(q) == multiset(Without(q, i)) + multiset{q[i]}
  {
    assert q == q[..i] + [q[i]] + q[i + 1..];
  }

  /** A position holding an item of least value; the heap decides which of several. */
  ghost predicate IsLeast(q: seq<Item>, i: nat) {
    i < |q| && forall j :: 0 <= j < |q| ==> q[i].value <= q[j].value
  }

  ghost predicate IsGreatest(q: seq<Item>, i: nat) {
    i < |q| && forall j :: 0 <= j < |q| ==> q[j].value <= q[i].value
  }

  method Least(q: seq<Item>) returns (i: nat)
    requires q != []
    ensures IsLeast(q, i)
  {
    i := 0;
    for j := 1 to |q|
      invariant i < j && forall k :: 0 <= k < j ==> q[i].value <= q[k].value
    {
      if q[j].value < q[i].value {
        i := j;
      } else if q[j].value == q[i].value {
        if * {
          i := j;
        }
      }
    }
  }

  method Greatest(q: seq<Item>) returns (i: nat)
    requires q != []
    ensures IsGreatest(q, i)
  {
    i := 0;
    for j := 1 to |q|
      invariant i < j && forall k :: 0 <= k < j ==> q[k].value <= q[i].value
    {
      if q[j].value > q[i].value {
        i := j;
      } else if q[j].value == q[i].value {
        if * {
          i := j;
        }
      }
    }
  }

  /** Whether an item is admitted: it fits next to the queued items that are at least as valuable. */
  predicate Admits(q: seq<Item>, x: Item) {
    SumAtLeast(q, x.value) + x.size < MAX_TOTAL_SIZE
  }

  /** There is no room for the item, not even beside those items alone that are at least as valuable. */
  predicate NoRoom(q: seq<Item>, e: Item) {
    SumAtLeast(q, e.value) + e.size >= MAX_TOTAL_SIZE
  }

  lemma NoRoomLater(q: seq<Item>, x: Item, e: Item)
    requires NoRoom(q, e)
    ensures NoRoom(q + [x], e)
  {
    SumSnoc(q, x, e.value);
  }

  /** No item of the second list is more valuable than one of the first. */
  ghost predicate Above(q: seq<Item>, rest: seq<Item>) {
    forall c, r :: c in q && r in rest ==> r.value <= c.value
  }

  lemma AboveNoRoom(q: seq<Item>, rest: seq<Item>, i: nat)
    requires Above(q, rest) && i < |rest| && Sum(q) + rest[i].size >= MAX_TOTAL_SIZE
    ensures NoRoom(q, rest[i])
  {
    forall k | 0 <= k < |q| ensures q[k].value >= rest[i].value {
      assert q[k] in q && rest[i] in rest;
    }
    AllAtLeast(q, rest[i].value);
  }

  /** The greatest of the rest goes back: what is left stays below. */
  lemma AboveBack(q: seq<Item>, rest: seq<Item>, i: nat)
    requires Above(q, rest) && IsGreatest(rest, i)
    ensures Above(q + [rest[i]], Without(rest, i)) && Above(q, Without(rest, i))
  {
    forall r | r in Without(rest, i) ensures r in rest && r.value <= rest[i].value {
      var k :| 0 <= k < |rest| && rest[k] == r;
    }
  }

  /** The least of the queue is taken out: what is left stays above. */
  lemma AboveOut(q: seq<Item>, rubbish: seq<Item>, i: nat)
    requires Above(q, rubbish) && IsLeast(q, i)
    ensures Above(Without(q, i), rubbish + [q[i]])
  {
    assert q[i] in q;
    forall c | c in Without(q, i) ensures c in q && q[i].value <= c.value {
      var k :| 0 <= k < |q| && q[k] == c;
    }
  }

  /**
   What considering an item has done to the queue: the item is in if it is admitted, some items are out,
   and those are less valuable than it and would not even fit beside the queued items that are at least as
   valuable as they are. Nothing is out unless it is in.
   */
  ghost predicate Considered(before: seq<Item>, x: Item, after: seq<Item>, evicted: seq<Item>) {
    && multiset(after) + multiset(evicted) == multiset(before) + (if Admits(before, x) then multiset{x} else multiset{})
    && (forall e :: e in evicted ==> e.value < x.value && NoRoom(after, e))
    && (!Admits(before, x) ==> evicted == [])
  }

  lemma ConsideredFrom(before: seq<Item>, x: Item, after: seq<Item>, evicted: seq<Item>, y: Item)
    requires Considered(before, x, after, evicted) && y in after
    ensures y in before || y == x
  {
    assert y in multiset(after) + multiset(evicted);
    if y != x {
      assert y in multiset(before);
    }
  }

  ghost predicate Within(rest: seq<Item>, all: seq<Item>) {
    forall r :: r in rest ==> r in all
  }

  lemma WithinWithout(rest: seq<Item>, i: nat, all: seq<Item>)
    requires Within(rest, all) && i < |rest|
    ensures Within(Without(rest, i), all) && rest[i] in all
  {
    forall r | r in Without(rest, i) ensures r in all {
      assert r in rest;
    }
  }

  lemma {:induction false} MemberSize(q: seq<Item>, i: nat)
    requires i < |q|
    ensures q[i].size <= Sum(q)
  {
    if i < |q| - 1 {
      MemberSize(q[..|q| - 1], i);
    }
  }

  /** Some items have been moved from a queue into a heap of rubbish. */
  ghost predicate Moved(before: seq<Item>, q: seq<Item>, rubbish: seq<Item>) {
    multiset(q) + multiset(rubbish) == multiset(before) && Sum(q) + Sum(rubbish) == Sum(before)
  }

  lemma MovedOneMore(before: seq<Item>, q: seq<Item>, rubbish: seq<Item>, i: nat)
    requires Moved(before, q, rubbish) && i < |q|
    ensures Moved(before, Without(q, i), rubbish + [q[i]])
  {
    SumWithout(q, i, 0);
    WithoutMultiset(q, i);
    SumSnoc(rubbish, q[i], 0);
  }

  /** The rubbish has been sorted into what is back in the queue, what is evicted for good and the rest. */
  ghost predicate Sorted(before: seq<Item>, rubbish: seq<Item>, q: seq<Item>, evicted: seq<Item>, rest: seq<Item>) {
    && multiset(q) + multiset(evicted) + multiset(rest) == multiset(before) + multiset(rubbish)
    && Sum(q) + Sum(evicted) + Sum(rest) == Sum(before) + Sum(rubbish)
  }

  lemma SortedBack(before: seq<Item>, rubbish: seq<Item>, q: seq<Item>, evicted: seq<Item>, rest: seq<Item>, i: nat)
    requires Sorted(before, rubbish, q, evicted, rest) && i < |rest|
    ensures Sorted(before, rubbish, q + [rest[i]], evicted, Without(rest, i))
  {
    SumWithout(rest, i, 0);
    WithoutMultiset(rest, i);
    SumSnoc(q, rest[i], 0);
  }

  lemma SortedOut(before: seq<Item>, rubbish: seq<Item>, q: seq<Item>, evicted: seq<Item>, rest: seq<Item>, i: nat)
    requires Sorted(before, rubbish, q, evicted, rest) && i < |rest|
    ensures Sorted(before, rubbish, q, evicted + [rest[i]], Without(rest, i))
  {
    SumWithout(rest, i, 0);
    WithoutMultiset(rest, i);
    SumSnoc(evicted, rest[i], 0);
  }

  lemma NothingEvicted(base: seq<Item>, rubbish: seq<Item>, after: seq<Item>, evicted: seq<Item>)
    requires Sorted(base, rubbish, after, evicted, []) && Sum(base) + Sum(rubbish) < MAX_TOTAL_SIZE
    requires forall e :: e in evicted ==> NoRoom(after, e)
    ensures evicted == []
  {
    if evicted != [] {
      assert evicted[0] in evicted && NoRoom(after, evicted[0]);
      AtLeastBounded(after, evicted[0].value);
      MemberSize(evicted, 0);
    }
  }

  /** Making room, admitting and putting back together are what considering an item should do. */
  lemma ConsideredDone(before: seq<Item>, x: Item, kept: seq<Item>, rubbish: seq<Item>, base: seq<Item>, after: seq<Item>, evicted: seq<Item>)
    requires Moved(before, kept, rubbish) && base == (if Admits(before, x) then kept + [x] else kept)
    requires Sorted(base, rubbish, after, evicted, []) && Sum(before) < MAX_TOTAL_SIZE
    requires forall r :: r in rubbish ==> r.value < x.value
    requires forall e :: e in evicted ==> e in rubbish && NoRoom(after, e)
    ensures Considered(before, x, after, evicted)
  {
    if !Admits(before, x) {
      NothingEvicted(base, rubbish, after, evicted);
    }
    var added := if Admits(before, x) then multiset{x} else multiset{};
    assert multiset(base) == multiset(kept) + added;
    var none: seq<Item> := [];
    assert multiset(after) + multiset(evicted) == multiset(after) + multiset(evicted) + multiset(none);
    assert multiset(kept) + added + multiset(rubbish) == multiset(kept) + multiset(rubbish) + added;
  }

  /** Items less valuable than the new one have been taken out, and none as valuable. */
  ghost predicate RoomMade(before: seq<Item>, q: seq<Item>, rubbish: seq<Item>, x: Item) {
    && Moved(before, q, rubbish)
    && (forall r :: r in rubbish ==> r.value < x.value && r.size < MAX_TOTAL_SIZE)
    && SumAtLeast(q, x.value) == SumAtLeast(before, x.value) <= Sum(q) && Above(q, rubbish)
  }

  lemma RoomStart(before: seq<Item>, x: Item)
    ensures RoomMade(before, before, [], x)
  {
    AtLeastBounded(before, x.value);
  }

  lemma RoomStep(before: seq<Item>, q: seq<Item>, rubbish: seq<Item>, x: Item, i: nat)
    requires RoomMade(before, q, rubbish, x) && Sum(q) < MAX_TOTAL_SIZE && IsLeast(q, i) && q[i].value < x.value
    ensures RoomMade(before, Without(q, i), rubbish + [q[i]], x)
    ensures q[i].size <= Sum(q) && Sub32(Sum(q), q[i].size) == Sum(Without(q, i))
  {
    MemberSize(q, i);
    SumWithout(q, i, x.value);
    MovedOneMore(before, q, rubbish, i);
    AboveOut(q, rubbish, i);
    AtLeastBounded(Without(q, i), x.value);
    NoWrap(Sum(q), q[i].size);
  }

  /** Some of the rubbish is back in the queue, some does not fit any more, and some is still to be tried. */
  ghost predicate BackSoFar(before: seq<Item>, rubbish: seq<Item>, q: seq<Item>, evicted: seq<Item>, rest: seq<Item>) {
    && Sorted(before, rubbish, q, evicted, rest) && Within(rest, rubbish) && Above(q, rest)
    && (forall e :: e in evicted ==> e in rubbish && NoRoom(q, e))
  }

  lemma BackIn(before: seq<Item>, rubbish: seq<Item>, q: seq<Item>, evicted: seq<Item>, rest: seq<Item>, i: nat)
    requires BackSoFar(before, rubbish, q, evicted, rest) && IsGreatest(rest, i)
    ensures BackSoFar(before, rubbish, q + [rest[i]], evicted, Without(rest, i)) && rest[i] in rubbish
  {
    SortedBack(before, rubbish, q, evicted, rest, i);
    WithinWithout(rest, i, rubbish);
    AboveBack(q, rest, i);
    forall e | e in evicted ensures NoRoom(q + [rest[i]], e) {
      NoRoomLater(q, rest[i], e);
    }
  }

  lemma StaysOut(before: seq<Item>, rubbish: seq<Item>, q: seq<Item>, evicted: seq<Item>, rest: seq<Item>, i: nat)
    requires BackSoFar(before, rubbish, q, evicted, rest) && IsGreatest(rest, i)
    ensures rest[i] in rubbish
    ensures Sum(q) + rest[i].size >= MAX_TOTAL_SIZE ==> BackSoFar(before, rubbish, q, evicted + [rest[i]], Without(rest, i))
  {
    SortedOut(before, rubbish, q, evicted, rest, i);
    WithinWithout(rest, i, rubbish);
    AboveBack(q, rest, i);
    if Sum(q) + rest[i].size >= MAX_TOTAL_SIZE {
      AboveNoRoom(q, rest, i);
    }
  }

  class CandidateQueue {
    var candidates: seq<Item>
    var nowTotalSize: nat

    /** The running total is the sum of the queued sizes and within the budget, so no 32-bit sum ever wraps. */
    ghost predicate Valid()
      reads this
    {
      nowTotalSize == Sum(candidates) < MAX_TOTAL_SIZE
    }

    constructor ()
      ensures Valid() && candidates == []
    {
      candidates := [];
      nowTotalSize := 0;
    }

    method Push(x: Item)
      requires Valid() && Add32(nowTotalSize, x.size) < MAX_TOTAL_SIZE && x.size < MAX_TOTAL_SIZE
      modifies this
      ensures Valid() && candidates == old(candidates) + [x]
    {
      SumSnoc(candidates, x, 0);
      nowTotalSize := Add32(nowTotalSize, x.size);
      candidates := candidates + [x];
    }

    /** Takes the least valuable items out until the new one fits or none less valuable is left. */
    method MakeRoom(x: Item) returns (rubbish: seq<Item>)
      requires Valid() && x.size < MAX_TOTAL_SIZE
      modifies this
      ensures Valid() && Moved(old(candidates), candidates, rubbish)
      ensures forall r :: r in rubbish ==> r.value < x.value && r.size < MAX_TOTAL_SIZE
      ensures Above(candidates, rubbish)
      ensures Add32(nowTotalSize, x.size) < MAX_TOTAL_SIZE <==> Admits(old(candidates), x)
    {
      rubbish := [];
      RoomStart(candidates, x);
      while Add32(nowTotalSize, x.size) >= MAX_TOTAL_SIZE
        invariant Valid() && RoomMade(old(candidates), candidates, rubbish, x)
        decreases |candidates|
      {
        NoWrap(nowTotalSize, x.size);
        assert candidates != [];
        var i := Least(candidates);
        var top := candidates[i];
        if top.value >= x.value {
          AllAtLeast(candidates, x.value);
          return;
        }
        RoomStep(old(candidates), candidates, rubbish, x, i);
        rubbish := rubbish + [top];
        nowTotalSize := Sub32(nowTotalSize, top.size);
        candidates := Without(candidates, i);
      }
      NoWrap(nowTotalSize, x.size);
    }

    /** Puts the items taken out back in, the most valuable first, as far as they fit. */
    method PutBack(rubbish: seq<Item>) returns (ghost evicted: seq<Item>)
      requires Valid() && (forall r :: r in rubbish ==> r.size < MAX_TOTAL_SIZE) && Above(candidates, rubbish)
      modifies this
      ensures Valid() && Sorted(old(candidates), rubbish, candidates, evicted, [])
      ensures forall e :: e in evicted ==> e in rubbish && NoRoom(candidates, e)
    {
      var rest := rubbish;
      evicted := [];
      while rest != []
        invariant Valid() && BackSoFar(old(candidates), rubbish, candidates, evicted, rest)
        decreases |rest|
      {
        var i := Greatest(rest);
        var top := rest[i];
        StaysOut(old(candidates), rubbish, candidates, evicted, rest, i);
        NoWrap(nowTotalSize, top.size);
        if Add32(nowTotalSize, top.size) < MAX_TOTAL_SIZE {
          BackIn(old(candidates), rubbish, candidates, evicted, rest, i);
          Push(top);
        } else {
          evicted := evicted + [top];
        }
        rest := Without(rest, i);
      }
    }

    /** Considers one predicate's list. */
    method Consider(x: Item) returns (ghost evicted: seq<Item>)
      requires Valid() && x.size < MAX_TOTAL_SIZE
      modifies this
      ensures Valid() && Considered(old(candidates), x, candidates, evicted)
      ensures Sum(old(candidates)) + x.size < MAX_TOTAL_SIZE ==> candidates == old(candidates) + [x]
    {
      evicted := [];
      AtLeastBounded(candidates, x.value);
      NoWrap(x.size, nowTotalSize);
      if Add32(x.size, nowTotalSize) < MAX_TOTAL_SIZE {
        Push(x);
        return;
      }
      if candidates == [] {
        return;
      }
      var i := Least(candidates);
      if x.value <= candidates[i].value {
        AllAtLeast(candidates, x.value);
        return;
      }
      var rubbish := MakeRoom(x);
      ghost var kept := candidates;
      if Add32(nowTotalSize, x.size) < MAX_TOTAL_SIZE {
        SumSnoc(candidates, x, 0);
        Push(x);
      }
      ghost var base := candidates;
      evicted := PutBack(rubbish);
      ConsideredDone(old(candidates), x, kept, rubbish, base, candidates, evicted);
    }

    /** Considers the list of the next predicate, which may be queued. */
    method ConsiderNext(ghost listSizes: seq<nat>, ghost pre2num: seq<nat>, ghost isLongList: nat -> bool, x: Item)
      requires Valid() && Eligible(listSizes, pre2num, isLongList, x)
      requires SelectedSoFar(listSizes, pre2num, isLongList, x.key, candidates)
      modifies this
      ensures Valid() && SelectedSoFar(listSizes, pre2num, isLongList, x.key + 1, candidates)
    {
      ghost var before := candidates;
      SelectedRoom(listSizes, pre2num, isLongList, x, before);
      ghost var evicted := Consider(x);
      SelectedOneMore(listSizes, pre2num, isLongList, x, before, candidates, evicted);
    }

    /**
     Goes through all predicates; only long lists of predicates with triples, within the budget, are considered. The
     test for sizes beyond 32 bits never fires, so of such a size only the lowest 32 bits count.
     */
    method GetCandidatePreID(listSizes: seq<nat>, pre2num: seq<nat>, isLongList: nat -> bool)
      requires |listSizes| == |pre2num|
      modifies this
      ensures Valid()
      ensures forall x :: x in candidates ==> Eligible(listSizes, pre2num, isLongList, x)
      ensures (forall i :: 0 <= i < |listSizes| ==> !Disguised(listSizes, pre2num, isLongList, i)) ==>
                LoadedSize(candidates, listSizes) < MAX_TOTAL_SIZE
      ensures var items := EligibleItems(listSizes, pre2num, isLongList, |listSizes|);
              Sum(items) < MAX_TOTAL_SIZE ==>
                && candidates == items
                && (LoadedSize(candidates, listSizes) < MAX_TOTAL_SIZE <==>
                    forall i :: 0 <= i < |listSizes| ==> !Disguised(listSizes, pre2num, isLongList, i))
      ensures ConsideredAll(EligibleItems(listSizes, pre2num, isLongList, |listSizes|), candidates)
    {
      candidates := [];
      nowTotalSize := 0;
      for i := 0 to |listSizes|
        invariant Valid()
        invariant SelectedSoFar(listSizes, pre2num, isLongList, i, candidates)
      {
        SelectedSkips(listSizes, pre2num, isLongList, i, candidates);
        var size := listSizes[i] % WORD;
        if !isLongList(size) || size >= MAX_TOTAL_SIZE {
          continue;
        }
        if pre2num[i] == 0 {
          continue;
        }
        ConsiderNext(listSizes, pre2num, isLongList, Item(i, size, pre2num[i]));
      }
      UndisguisedFit(candidates, listSizes, pre2num, isLongList);
      LoadedEligible(listSizes, pre2num, isLongList);
    }
  }

  predicate Eligible(listSizes: seq<nat>, pre2num: seq<nat>, isLongList: nat -> bool, x: Item) {
    && x.key < |listSizes| == |pre2num| && x.size == listSizes[x.key] % WORD < MAX_TOTAL_SIZE && x.value == pre2num[x.key] > 0
    && isLongList(x.size)
  }

  // ---- sizes beyond 32 bits ----

  /** Each item's size is what 32 bits hold of its list's. */
  predicate Truncated(q: seq<Item>, listSizes: seq<nat>) {
    forall x :: x in q ==> x.key < |listSizes| && x.size == listSizes[x.key] % WORD
  }

  /** How much the queued lists take when they are loaded. */
  function LoadedSize(q: seq<Item>, listSizes: seq<nat>): nat {
    if q == [] then 0 else
      var last := q[|q| - 1];
      LoadedSize(q[..|q| - 1], listSizes) + (if last.key < |listSizes| then listSizes[last.key] else 0)
  }

  lemma {:induction false} LoadedOfFitting(q: seq<Item>, listSizes: seq<nat>)
    requires Truncated(q, listSizes)
    ensures LoadedSize(q, listSizes) >= Sum(q)
    ensures (forall x :: x in q ==> listSizes[x.key] < WORD) ==> LoadedSize(q, listSizes) == Sum(q)
    ensures forall x :: x in q ==> LoadedSize(q, listSizes) >= listSizes[x.key]
  {
    if q != [] {
      var init, last := q[..|q| - 1], q[|q| - 1];
      assert q == init + [last] && last in q;
      LoadedOfFitting(init, listSizes);
    }
  }

  /** Within the budget by the counted sizes, the queued lists are within it when loaded exactly if no size exceeded 32 bits. */
  lemma LoadedWithinIff(q: seq<Item>, listSizes: seq<nat>)
    requires Sum(q) < MAX_TOTAL_SIZE && Truncated(q, listSizes)
    ensures LoadedSize(q, listSizes) < MAX_TOTAL_SIZE <==> forall x :: x in q ==> listSizes[x.key] < WORD
  {
    LoadedOfFitting(q, listSizes);
  }

  /** A list of more than 32 bits that passes for one the cache may take. */
  predicate Disguised(listSizes: seq<nat>, pre2num: seq<nat>, isLongList: nat -> bool, i: nat)
    requires i < |listSizes| == |pre2num|
  {
    listSizes[i] >= WORD && Eligible(listSizes, pre2num, isLongList, Item(i, listSizes[i] % WORD, pre2num[i]))
  }

  lemma UndisguisedFit(q: seq<Item>, listSizes: seq<nat>, pre2num: seq<nat>, isLongList: nat -> bool)
    requires |listSizes| == |pre2num| && Sum(q) < MAX_TOTAL_SIZE && forall x :: x in q ==> Eligible(listSizes, pre2num, isLongList, x)
    ensures (forall i :: 0 <= i < |listSizes| ==> !Disguised(listSizes, pre2num, isLongList, i)) ==> LoadedSize(q, listSizes) < MAX_TOTAL_SIZE
  {
    forall x | x in q ensures x == Item(x.key, listSizes[x.key] % WORD, pre2num[x.key]) {
      assert Eligible(listSizes, pre2num, isLongList, x);
    }
    if forall i :: 0 <= i < |listSizes| ==> !Disguised(listSizes, pre2num, isLongList, i) {
      forall x | x in q ensures listSizes[x.key] < WORD {
        assert !Disguised(listSizes, pre2num, isLongList, x.key);
      }
    }
    LoadedWithinIff(q, listSizes);
  }

  /** The lists that may be queued, in the order in which they are considered. */
  function EligibleItems(listSizes: seq<nat>, pre2num: seq<nat>, isLongList: nat -> bool, n: nat): seq<Item>
    requires n <= |listSizes| == |pre2num|
  {
    if n == 0 then [] else
      var x := Item(n - 1, listSizes[n - 1] % WORD, pre2num[n - 1]);
      var earlier := EligibleItems(listSizes, pre2num, isLongList, n - 1);
      if Eligible(listSizes, pre2num, isLongList, x) then earlier + [x] else earlier
  }

  lemma {:induction false} InEligibleItems(listSizes: seq<nat>, pre2num: seq<nat>, isLongList: nat -> bool, n: nat, x: Item)
    requires n <= |listSizes| == |pre2num|
    ensures x in EligibleItems(listSizes, pre2num, isLongList, n) <==>
              && x.key < n && isLongList(x.size) && pre2num[x.key] > 0 && listSizes[x.key] % WORD < MAX_TOTAL_SIZE
              && x == Item(x.key, listSizes[x.key] % WORD, pre2num[x.key])
  {
    if n > 0 {
      InEligibleItems(listSizes, pre2num, isLongList, n - 1, x);
    }
  }

  /** They come in the order of their predicates. */
  lemma {:induction false} EligibleIncreasing(listSizes: seq<nat>, pre2num: seq<nat>, isLongList: nat -> bool, n: nat)
    requires n <= |listSizes| == |pre2num|
    ensures KeysIncreasing(EligibleItems(listSizes, pre2num, isLongList, n), n)
  {
    if n > 0 {
      EligibleIncreasing(listSizes, pre2num, isLongList, n - 1);
      var earlier := EligibleItems(listSizes, pre2num, isLongList, n - 1);
      assert KeysIncreasing(earlier, n);
      KeysSnoc(earlier, Item(n - 1, listSizes[n - 1] % WORD, pre2num[n - 1]));
    }
  }

  ghost predicate KeysIncreasing(items: seq<Item>, bound: nat) {
    (forall i :: 0 <= i < |items| ==> items[i].key < bound) && forall i, j :: 0 <= i < j < |items| ==> items[i].key < items[j].key
  }

  lemma KeysSnoc(items: seq<Item>, x: Item)
    requires KeysIncreasing(items, x.key)
    ensures KeysIncreasing(items + [x], x.key + 1)
  {
  }

  /** The queue after some items have been considered one after another. */
  ghost predicate ConsideredAll(items: seq<Item>, q: seq<Item>)
    decreases |items|, 0
  {
    if items == [] then q == [] else ConsideredLast(items[..|items| - 1], items[|items| - 1], q)
  }

  ghost predicate ConsideredLast(earlier: seq<Item>, last: Item, q: seq<Item>)
    decreases |earlier|, 1
  {
    exists before :: ConsideredAll(earlier, before) && ConsiderLeads(before, last, q)
  }

  ghost predicate ConsiderLeads(before: seq<Item>, x: Item, q: seq<Item>) {
    exists evicted :: Considered(before, x, q, evicted)
  }

  lemma ConsideredNext(items: seq<Item>, before: seq<Item>, x: Item, q: seq<Item>, evicted: seq<Item>)
    requires ConsideredAll(items, before) && Considered(before, x, q, evicted)
    ensures ConsideredAll(items + [x], q)
  {
    assert (items + [x])[..|items|] == items;
    assert ConsiderLeads(before, x, q);
    assert ConsideredLast(items, x, q);
  }

  /** As long as everything fits, everything is queued. */
  ghost predicate AllQueued(candidates: seq<Item>, items: seq<Item>) {
    Sum(items) < MAX_TOTAL_SIZE ==> candidates == items
  }

  lemma NextQueued(candidates: seq<Item>, x: Item, items: seq<Item>)
    requires AllQueued(candidates, items)
    ensures Sum(items + [x]) < MAX_TOTAL_SIZE ==> candidates == items && Sum(candidates) + x.size < MAX_TOTAL_SIZE
  {
    SumSnoc(items, x, 0);
  }

  /** The queue after the first predicates: every eligible list has been considered, and as long as all fit, all are in. */
  ghost predicate SelectedSoFar(listSizes: seq<nat>, pre2num: seq<nat>, isLongList: nat -> bool, n: nat, q: seq<Item>)
    requires |listSizes| == |pre2num|
  {
    && n <= |listSizes| && (forall y :: y in q ==> Eligible(listSizes, pre2num, isLongList, y))
    && AllQueued(q, EligibleItems(listSizes, pre2num, isLongList, n))
    && ConsideredAll(EligibleItems(listSizes, pre2num, isLongList, n), q)
  }

  lemma SelectedSkips(listSizes: seq<nat>, pre2num: seq<nat>, isLongList: nat -> bool, n: nat, q: seq<Item>)
    requires n < |listSizes| == |pre2num| && SelectedSoFar(listSizes, pre2num, isLongList, n, q)
    ensures !Eligible(listSizes, pre2num, isLongList, Item(n, listSizes[n] % WORD, pre2num[n])) ==>
              SelectedSoFar(listSizes, pre2num, isLongList, n + 1, q)
  {
  }

  lemma SelectedRoom(listSizes: seq<nat>, pre2num: seq<nat>, isLongList: nat -> bool, x: Item, q: seq<Item>)
    requires |listSizes| == |pre2num| && SelectedSoFar(listSizes, pre2num, isLongList, x.key, q) && Eligible(listSizes, pre2num, isLongList, x)
    ensures Sum(EligibleItems(listSizes, pre2num, isLongList, x.key + 1)) < MAX_TOTAL_SIZE ==>
              q == EligibleItems(listSizes, pre2num, isLongList, x.key) && Sum(q) + x.size < MAX_TOTAL_SIZE
  {
    NextQueued(q, x, EligibleItems(listSizes, pre2num, isLongList, x.key));
  }

  lemma SelectedOneMore(listSizes: seq<nat>, pre2num: seq<nat>, isLongList: nat -> bool, x: Item, before: seq<Item>, q: seq<Item>, evicted: seq<Item>)
    requires |listSizes| == |pre2num| && SelectedSoFar(listSizes, pre2num, isLongList, x.key, before) && Eligible(listSizes, pre2num, isLongList, x)
    requires Considered(before, x, q, evicted) && (Sum(before) + x.size < MAX_TOTAL_SIZE ==> q == before + [x])
    ensures SelectedSoFar(listSizes, pre2num, isLongList, x.key + 1, q)
  {
    var items := EligibleItems(listSizes, pre2num, isLongList, x.key);
    assert EligibleItems(listSizes, pre2num, isLongList, x.key + 1) == items + [x];
    NextQueued(before, x, items);
    forall y | y in q ensures Eligible(listSizes, pre2num, isLongList, y) {
      ConsideredFrom(before, x, q, evicted, y);
    }
    ConsideredNext(items, before, x, q, evicted);
  }

  /** If all lists that may be queued fit, they fit when loaded exactly if none of them is of more than 32 bits. */
  lemma LoadedEligible(listSizes: seq<nat>, pre2num: seq<nat>, isLongList: nat -> bool)
    requires |listSizes| == |pre2num|
    ensures var items := EligibleItems(listSizes, pre2num, isLongList, |listSizes|);
            Sum(items) < MAX_TOTAL_SIZE ==>
              (LoadedSize(items, listSizes) < MAX_TOTAL_SIZE <==> forall i :: 0 <= i < |listSizes| ==> !Disguised(listSizes, pre2num, isLongList, i))
  {
    var items := EligibleItems(listSizes, pre2num, isLongList, |listSizes|);
    forall x | x in items ensures Eligible(listSizes, pre2num, isLongList, x) {
      InEligibleItems(listSizes, pre2num, isLongList, |listSizes|, x);
    }
    if Sum(items) < MAX_TOTAL_SIZE {
      UndisguisedFit(items, listSizes, pre2num, isLongList);
      LoadedWithinIff(items, listSizes);
      if i :| 0 <= i < |listSizes| && Disguised(listSizes, pre2num, isLongList, i) {
        InEligibleItems(listSizes, pre2num, isLongList, |listSizes|, Item(i, listSizes[i] % WORD, pre2num[i]));
      }
    }
  }

  /** Such a list is let in, whatever its size, if the lowest 32 bits of the size look small enough. */
  lemma OversizedAdmitted(size: nat, value: nat)
    requires size >= WORD && size % WORD < MAX_TOTAL_SIZE
    ensures Admits([], Item(0, size % WORD, value))
    ensures Truncated([Item(0, size % WORD, value)], [size])
    ensures LoadedSize([Item(0, size % WORD, value)], [size]) >= MAX_TOTAL_SIZE
  {
    var x := Item(0, size % WORD, value);
    assert x in [x];
    LoadedOfFitting([x], [size]);
  }

  /** One list of more than 32 bits: the selection takes it, and the queue is beyond the budget when it is loaded. */
  method QueueOversized(queue: CandidateQueue, size: nat, value: nat, isLongList: nat -> bool)
    requires size >= WORD && size % WORD < MAX_TOTAL_SIZE && isLongList(size % WORD) && value > 0
    modifies queue
    ensures queue.candidates == [Item(0, size % WORD, value)]
    ensures LoadedSize(queue.candidates, [size]) >= MAX_TOTAL_SIZE
  {
    var x := Item(0, size % WORD, value);
    assert Disguised([size], [value], isLongList, 0);
    assert EligibleItems([size], [value], isLongList, 1) == [x];
    SumSnoc([], x, 0);
    queue.GetCandidatePreID([size], [value], isLongList);
  }
}
