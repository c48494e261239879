/**
 Candidate id lists: the in-place intersection with its three strategies, and the update step that
 the executor applies once per query edge.
 */
module IdList {
  import opened Rdf

  /** The elements of a that also occur in b, in the order of a. */
  function Intersection(a: seq<nat>, b: seq<nat>): (r: seq<nat>)
    ensures forall x :: x in r <==> x in a && x in b
  {
    if a == [] then [] else
      var rest := Intersection(a[1..], b);
      if a[0] in b then [a[0]] + rest else rest
  }

  lemma {:induction false} IntersectionIncreasing(a: seq<nat>, b: seq<nat>)
    requires StrictlyIncreasing(a)
    ensures StrictlyIncreasing(Intersection(a, b))
  {
    if a != [] {
      IntersectionIncreasing(a[1..], b);
      var rest := Intersection(a[1..], b);
      assert forall i :: 0 <= i < |rest| ==> rest[i] in a[1..];
    }
  }

  lemma {:induction false} IntersectionSnoc(a: seq<nat>, x: nat, b: seq<nat>)
    ensures Intersection(a + [x], b) == Intersection(a, b) + (if x in b then [x] else [])
  {
    if a == [] {
      assert a + [x] == [x];
    } else {
      assert (a + [x])[1..] == a[1..] + [x];
      IntersectionSnoc(a[1..], x, b);
    }
  }

  /** On increasing lists it does not matter which list is walked and which is searched. */
  lemma IntersectionCommutes(a: seq<nat>, b: seq<nat>)
    requires StrictlyIncreasing(a) && StrictlyIncreasing(b)
    ensures Intersection(a, b) == Intersection(b, a)
  {
    IntersectionIncreasing(a, b);
    IntersectionIncreasing(b, a);
    SortedUnique(Intersection(a, b), Intersection(b, a));
  }

  /** How two lists are intersected; the source picks one from the ratio of their sizes. */
  datatype Strategy = Merge | SearchInSelf | SearchInOther

  class IDList {
    var ids: seq<nat>

    constructor ()
      ensures ids == []
    {
      ids := [];
    }

    method AddID(id: nat)
      modifies this
      ensures ids == old(ids) + [id]
    {
      ids := ids + [id];
    }

    /** Whatever the strategy, this list becomes its intersection with the other one. */
    method IntersectList(other: seq<nat>, strategy: Strategy) returns (removed: nat)
      requires StrictlyIncreasing(ids) && StrictlyIncreasing(other)
      modifies this
      ensures ids == Intersection(old(ids), other) && StrictlyIncreasing(ids)
      ensures removed == |old(ids)| - |ids|
    {
      IntersectionIncreasing(ids, other);
      if other == [] {
        removed := |ids|;
        ids := [];
        EmptyIntersection(old(ids), other);
        return;
      }
      match strategy
      case Merge =>
        removed := MergeIntersect(other);
      case SearchInSelf =>
        var newIds: seq<nat>, i := [], 0;
        while i < |other|
          invariant 0 <= i <= |other| && ids == old(ids)
          invariant newIds == Intersection(other[..i], ids)
        {
          IntersectionSnoc(other[..i], other[i], ids);
          assert other[..i + 1] == other[..i] + [other[i]];
          if other[i] in ids {
            newIds := newIds + [other[i]];
          }
          i := i + 1;
        }
        assert other[..i] == other;
        IntersectionCommutes(ids, other);
        IntersectionLength(ids, other);
        removed := |ids| - |newIds|;
        ids := newIds;
      case SearchInOther =>
        var newIds: seq<nat>, i := [], 0;
        while i < |ids|
          invariant 0 <= i <= |ids| && ids == old(ids)
          invariant newIds == Intersection(ids[..i], other)
        {
          IntersectionSnoc(ids[..i], ids[i], other);
          assert ids[..i + 1] == ids[..i] + [ids[i]];
          if ids[i] in other {
            newIds := newIds + [ids[i]];
          }
          i := i + 1;
        }
        assert ids[..i] == ids;
        IntersectionLength(ids, other);
        removed := |ids| - |newIds|;
        ids := newIds;
    }

    static method SkipBelow(other: seq<nat>, start: nat, candidate: nat) returns (j: nat)
      requires start <= |other| && forall k :: 0 <= k < start ==> other[k] < candidate
      ensures start <= j <= |other| && forall k :: 0 <= k < j ==> other[k] < candidate
      ensures j < |other| ==> other[j] >= candidate
    {
      j := start;
      while j < |other| && other[j] < candidate
        invariant start <= j <= |other|
        invariant forall k :: 0 <= k < j ==> other[k] < candidate
      {
        j := j + 1;
      }
    }

    /** The linear merge: survivors are compacted to the front of the list, then the tail is cut off. */
    method MergeIntersect(other: seq<nat>) returns (removed: nat)
      requires StrictlyIncreasing(ids) && StrictlyIncreasing(other)
      modifies this
      ensures ids == Intersection(old(ids), other)
      ensures removed == |old(ids)| - |ids|
    {
      ghost var was := ids;
      var it, forward, j := 0, 0, 0;
      while it < |ids|
        invariant Merging(was, other, ids, it, forward, j)
      {
        var candidate := ids[it];
        ghost var from := j;
        assert forall k :: 0 <= k < j ==> other[k] < candidate by {
          MergeHead(was, other, ids, it, forward, j);
        }
        j := SkipBelow(other, j, candidate);
        if j == |other| {
          MergeStops(was, other, ids, it, forward, from);
          break;
        }
        MergeStep(was, other, ids, it, forward, from, j);
        if candidate == other[j] {
          ids := ids[forward := candidate];
          forward := forward + 1;
          j := j + 1;
        }
        it := it + 1;
      }
      if it >= |ids| {
        MergeEnds(was, other, ids, it, forward, j);
      }
      removed := |ids| - forward;
      ids := ids[..forward];
    }
  }

  /** The merge has seen some candidates; the survivors are in front, and the other list's first elements are below the next candidate. */
  ghost predicate Merging(was: seq<nat>, other: seq<nat>, ids: seq<nat>, it: nat, forward: nat, j: nat) {
    && forward <= it <= |was| == |ids| && j <= |other| && ids[it..] == was[it..]
    && ids[..forward] == Intersection(was[..it], other)
    && (it < |was| ==> forall k :: 0 <= k < j ==> other[k] < was[it])
  }

  lemma MergeHead(was: seq<nat>, other: seq<nat>, ids: seq<nat>, it: nat, forward: nat, j: nat)
    requires Merging(was, other, ids, it, forward, j) && it < |ids|
    ensures ids[it] == was[it] && was[..it + 1] == was[..it] + [was[it]] && ids[it + 1..] == was[it + 1..]
    ensures forall k :: 0 <= k < j ==> other[k] < ids[it]
  {
    assert ids[it] == ids[it..][0] && was[it] == was[it..][0];
    assert ids[it + 1..] == ids[it..][1..] && was[it + 1..] == was[it..][1..];
  }

  lemma MergeKeep(was: seq<nat>, other: seq<nat>, ids: seq<nat>, it: nat, forward: nat, j: nat)
    requires StrictlyIncreasing(was) && it < |ids| && j < |other|
    requires Merging(was, other, ids, it, forward, 0) && forall k :: 0 <= k < j ==> other[k] < was[it]
    requires other[j] == was[it]
    ensures Merging(was, other, ids[forward := was[it]], it + 1, forward + 1, j + 1)
  {
    MergeHead(was, other, ids, it, forward, 0);
    IntersectionSnoc(was[..it], was[it], other);
    assert ids[forward := was[it]][..forward + 1] == ids[..forward] + [was[it]];
    assert ids[forward := was[it]][it + 1..] == ids[it + 1..];
  }

  lemma MergeDrop(was: seq<nat>, other: seq<nat>, ids: seq<nat>, it: nat, forward: nat, j: nat)
    requires StrictlyIncreasing(was) && StrictlyIncreasing(other) && it < |ids| && j < |other|
    requires Merging(was, other, ids, it, forward, 0) && forall k :: 0 <= k < j ==> other[k] < was[it]
    requires other[j] > was[it]
    ensures Merging(was, other, ids, it + 1, forward, j)
  {
    MergeHead(was, other, ids, it, forward, 0);
    OnlyNext(other, j, was[it]);
    IntersectionSnoc(was[..it], was[it], other);
  }

  /** One candidate of the merge, once the other list has been advanced to it. */
  /** When the other list is used up, the rest of the first one goes. */
  lemma MergeStops(was: seq<nat>, other: seq<nat>, ids: seq<nat>, it: nat, forward: nat, from: nat)
    requires StrictlyIncreasing(was) && Merging(was, other, ids, it, forward, from) && it < |ids|
    requires forall k :: 0 <= k < |other| ==> other[k] < ids[it]
    ensures forward <= |ids| == |was| && ids[..forward] == Intersection(was, other)
  {
    assert ids[it] == was[it] by {
      MergeHead(was, other, ids, it, forward, from);
    }
    TailMisses(was, it, other);
  }

  lemma MergeEnds(was: seq<nat>, other: seq<nat>, ids: seq<nat>, it: nat, forward: nat, j: nat)
    requires Merging(was, other, ids, it, forward, j) && |ids| <= it
    ensures forward <= |ids| == |was| && ids[..forward] == Intersection(was, other)
  {
    assert was[..it] == was;
  }

  lemma MergeStep(was: seq<nat>, other: seq<nat>, ids: seq<nat>, it: nat, forward: nat, from: nat, j: nat)
    requires StrictlyIncreasing(was) && StrictlyIncreasing(other) && it < |ids| && j < |other|
    requires Merging(was, other, ids, it, forward, from) && (forall k :: 0 <= k < j ==> other[k] < ids[it]) && other[j] >= ids[it]
    ensures var keep := ids[it] == other[j];
            Merging(was, other, if keep then ids[forward := ids[it]] else ids, it + 1, if keep then forward + 1 else forward, if keep then j + 1 else j)
  {
    MergeHead(was, other, ids, it, forward, from);
    if ids[it] == other[j] {
      MergeKeep(was, other, ids, it, forward, j);
    } else {
      MergeDrop(was, other, ids, it, forward, j);
    }
  }

  lemma {:induction false} EmptyIntersection(a: seq<nat>, b: seq<nat>)
    requires forall x :: x in a ==> x !in b
    ensures Intersection(a, b) == []
  {
    if a != [] {
      assert a[0] in a;
      EmptyIntersection(a[1..], b);
    }
  }

  lemma {:induction false} IntersectionLength(a: seq<nat>, b: seq<nat>)
    ensures |Intersection(a, b)| <= |a|
  {
    if a != [] {
      IntersectionLength(a[1..], b);
    }
  }

  lemma {:induction false} IntersectionAppend(a: seq<nat>, c: seq<nat>, b: seq<nat>)
    ensures Intersection(a + c, b) == Intersection(a, b) + Intersection(c, b)
  {
    if a == [] {
      assert a + c == c;
    } else {
      assert (a + c)[1..] == a[1..] + c;
      IntersectionAppend(a[1..], c, b);
    }
  }

  /** In an increasing list whose first elements are too small, a value can only be the next element. */
  lemma OnlyNext(b: seq<nat>, j: nat, x: nat)
    requires StrictlyIncreasing(b) && j < |b| && b[j] >= x
    requires forall k :: 0 <= k < j ==> b[k] < x
    ensures x in b <==> b[j] == x
  {
    assert forall k :: j < k < |b| ==> b[j] < b[k];
  }

  /** Once the other list is exhausted, nothing further can match. */
  lemma TailMisses(a: seq<nat>, it: nat, b: seq<nat>)
    requires StrictlyIncreasing(a) && it < |a|
    requires forall k :: 0 <= k < |b| ==> b[k] < a[it]
    ensures Intersection(a, b) == Intersection(a[..it], b)
  {
    forall x | x in a[it..] ensures x !in b {
      var i :| 0 <= i < |a[it..]| && a[it..][i] == x;
      assert a[it + i] == x && a[it] <= x;
    }
    var head, tail := a[..it], a[it..];
    assert a == head + tail;
    EmptyIntersection(tail, b);
    IntersectionAppend(head, tail, b);
  }

  /** The update applied once per edge: the first edge fills the list, the later ones intersect it. */
  method UpdateIDList(valid: IDList, list: seq<nat>, prepared: bool, strategy: Strategy)
    requires StrictlyIncreasing(list)
    requires if prepared then StrictlyIncreasing(valid.ids) else valid.ids == []
    modifies valid
    ensures valid.ids == if prepared then Intersection(old(valid.ids), list) else list
    ensures StrictlyIncreasing(valid.ids)
  {
    if prepared {
      var _ := valid.IntersectList(list, strategy);
    } else {
      var i := 0;
      while i < |list|
        invariant 0 <= i <= |list|
        invariant valid.ids == list[..i]
      {
        valid.AddID(list[i]);
        i := i + 1;
      }
    }
  }
}
