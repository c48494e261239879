/**
 The indexed triple store as the query code sees it: a finite set of id triples, and the key-value
 lookups, each of which returns the matching ids in strictly increasing order.
 */
module Rdf {

  datatype Triple = Triple(s: nat, p: nat, o: nat)

  type Store = set<Triple>

  /** Entity ids lie below this bound and literal ids from it on; it is also how many ids one allocator can serve. */
  const LITERAL_FIRST_ID := 2_000_000_000

  ghost predicate StrictlyIncreasing(ids: seq<nat>) {
    forall i, j :: 0 <= i < j < |ids| ==> ids[i] < ids[j]
  }

  ghost predicate NoDuplicates<T>(xs: seq<T>) {
    forall i, j :: 0 <= i < j < |xs| ==> xs[i] != xs[j]
  }

  /** Every finite non-empty set of ids has a least element. */
  lemma LeastExists(ids: set<nat>)
    requires ids != {}
    ensures exists x :: IsLeast(x, ids)
  {
    var x :| x in ids;
    var rest := ids - {x};
    if rest == {} {
      assert ids == {x};
      assert IsLeast(x, ids);
    } else {
      LeastExists(rest);
      var m :| IsLeast(m, rest);
      assert ids == rest + {x};
      assert IsLeast(if x <= m then x else m, ids);
    }
  }

  predicate IsLeast(x: nat, ids: set<nat>) {
    x in ids && forall y :: y in ids ==> x <= y
  }

  function Least(ids: set<nat>): (x: nat)
    requires ids != {}
    ensures IsLeast(x, ids)
  {
    LeastExists(ids);
    var x :| x in ids && IsLeast(x, ids);
    x
  }

  /** The ids of a set in increasing order. */
  function SortedIds(ids: set<nat>): (r: seq<nat>)
    ensures StrictlyIncreasing(r)
    ensures forall x :: x in r <==> x in ids
  {
    if ids == {} then [] else
      var x := Least(ids);
      var rest := SortedIds(ids - {x});
      assert forall i :: 0 <= i < |rest| ==> rest[i] in ids - {x};
      [x] + rest
  }

  /** A strictly increasing list is determined by its elements. */
  lemma {:induction false} SortedUnique(a: seq<nat>, b: seq<nat>)
    requires StrictlyIncreasing(a) && StrictlyIncreasing(b)
    requires forall x :: x in a <==> x in b
    ensures a == b
  {
    assert |a| > 0 ==> a[0] in b;
    assert |b| > 0 ==> b[0] in a;
    if a != [] {
      assert a[0] == b[0];
      forall x ensures x in a[1..] <==> x in b[1..] {
        assert x in a[1..] <==> x in a && x != a[0] by { assert a == [a[0]] + a[1..]; }
        assert x in b[1..] <==> x in b && x != b[0] by { assert b == [b[0]] + b[1..]; }
      }
      SortedUnique(a[1..], b[1..]);
      assert a == [a[0]] + a[1..] && b == [b[0]] + b[1..];
    }
  }

  // The lookups of the key-value store, named after the ids they are given and the ids they return.

  function PreIdsBySub(g: Store, s: nat): (r: seq<nat>)
    ensures StrictlyIncreasing(r)
    ensures forall x :: x in r <==> exists o :: Triple(s, x, o) in g
  {
    var ids := set t | t in g && t.s == s :: t.p;
    assert forall x, o :: Triple(s, x, o) in g ==> Triple(s, x, o).p in ids;
    SortedIds(ids)
  }

  function ObjIdsBySub(g: Store, s: nat): (r: seq<nat>)
    ensures StrictlyIncreasing(r)
    ensures forall x :: x in r <==> exists p :: Triple(s, p, x) in g
  {
    var ids := set t | t in g && t.s == s :: t.o;
    assert forall x, p :: Triple(s, p, x) in g ==> Triple(s, p, x).o in ids;
    SortedIds(ids)
  }

  function SubIdsByPre(g: Store, p: nat): (r: seq<nat>)
    ensures StrictlyIncreasing(r)
    ensures forall x :: x in r <==> exists o :: Triple(x, p, o) in g
  {
    var ids := set t | t in g && t.p == p :: t.s;
    assert forall x, o :: Triple(x, p, o) in g ==> Triple(x, p, o).s in ids;
    SortedIds(ids)
  }

  function ObjIdsByPre(g: Store, p: nat): (r: seq<nat>)
    ensures StrictlyIncreasing(r)
    ensures forall x :: x in r <==> exists s :: Triple(s, p, x) in g
  {
    var ids := set t | t in g && t.p == p :: t.o;
    assert forall x, s :: Triple(s, p, x) in g ==> Triple(s, p, x).o in ids;
    SortedIds(ids)
  }

  function SubIdsByObj(g: Store, o: nat): (r: seq<nat>)
    ensures StrictlyIncreasing(r)
    ensures forall x :: x in r <==> exists p :: Triple(x, p, o) in g
  {
    var ids := set t | t in g && t.o == o :: t.s;
    assert forall x, p :: Triple(x, p, o) in g ==> Triple(x, p, o).s in ids;
    SortedIds(ids)
  }

  function PreIdsByObj(g: Store, o: nat): (r: seq<nat>)
    ensures StrictlyIncreasing(r)
    ensures forall x :: x in r <==> exists s :: Triple(s, x, o) in g
  {
    var ids := set t | t in g && t.o == o :: t.p;
    assert forall x, s :: Triple(s, x, o) in g ==> Triple(s, x, o).p in ids;
    SortedIds(ids)
  }

  function PreIdsBySubObj(g: Store, s: nat, o: nat): (r: seq<nat>)
    ensures StrictlyIncreasing(r)
    ensures forall x :: x in r <==> Triple(s, x, o) in g
  {
    var ids := set t | t in g && t.s == s && t.o == o :: t.p;
    assert forall x :: Triple(s, x, o) in g ==> Triple(s, x, o).p in ids;
    SortedIds(ids)
  }

  function ObjIdsBySubPre(g: Store, s: nat, p: nat): (r: seq<nat>)
    ensures StrictlyIncreasing(r)
    ensures forall x :: x in r <==> Triple(s, p, x) in g
  {
    var ids := set t | t in g && t.s == s && t.p == p :: t.o;
    assert forall x :: Triple(s, p, x) in g ==> Triple(s, p, x).o in ids;
    SortedIds(ids)
  }

  function SubIdsByObjPre(g: Store, o: nat, p: nat): (r: seq<nat>)
    ensures StrictlyIncreasing(r)
    ensures forall x :: x in r <==> Triple(x, p, o) in g
  {
    var ids := set t | t in g && t.o == o && t.p == p :: t.s;
    assert forall x :: Triple(x, p, o) in g ==> Triple(x, p, o).s in ids;
    SortedIds(ids)
  }

  /** The pairs (first, second) of a two-id lookup: grouped by the first id, both in increasing order. */
  function PairsFrom(firsts: seq<nat>, seconds: map<nat, seq<nat>>): (r: seq<(nat, nat)>)
    requires forall x :: x in firsts ==> x in seconds
    ensures forall a: nat, b: nat :: (a, b) in r <==> a in firsts && b in seconds[a]
  {
    if firsts == [] then [] else
      var head := seq(|seconds[firsts[0]]|, i requires 0 <= i < |seconds[firsts[0]]| => (firsts[0], seconds[firsts[0]][i]));
      var tail := PairsFrom(firsts[1..], seconds);
      assert forall a, b :: (a, b) in head <==> a == firsts[0] && b in seconds[a] by {
        forall a, b | a == firsts[0] && b in seconds[a] ensures (a, b) in head {
          var i :| 0 <= i < |seconds[a]| && seconds[a][i] == b;
          assert head[i] == (a, b);
        }
      }
      head + tail
  }

  lemma {:induction false} PairsFromDistinct(firsts: seq<nat>, seconds: map<nat, seq<nat>>)
    requires forall x :: x in firsts ==> x in seconds && StrictlyIncreasing(seconds[x])
    requires StrictlyIncreasing(firsts)
    ensures NoDuplicates(PairsFrom(firsts, seconds))
  {
    if firsts != [] {
      var f := firsts[0];
      var head := seq(|seconds[f]|, i requires 0 <= i < |seconds[f]| => (f, seconds[f][i]));
      var tail := PairsFrom(firsts[1..], seconds);
      PairsFromDistinct(firsts[1..], seconds);
      var r := PairsFrom(firsts, seconds);
      assert r == head + tail;
      forall i, j | 0 <= i < j < |r| ensures r[i] != r[j] {
        if j < |head| {
          assert seconds[f][i] < seconds[f][j];
        } else if i < |head| {
          assert r[j] in tail;
          assert r[j].0 in firsts[1..];
        } else {
          assert tail[i - |head|] != tail[j - |head|];
        }
      }
    }
  }

  function SubObjPairsByPre(g: Store, p: nat): (r: seq<(nat, nat)>)
    ensures forall a: nat, b: nat :: (a, b) in r <==> Triple(a, p, b) in g
  {
    var firsts := SubIdsByPre(g, p);
    var seconds := map s | s in firsts :: ObjIdsBySubPre(g, s, p);
    PairsFrom(firsts, seconds)
  }

  function PreObjPairsBySub(g: Store, s: nat): (r: seq<(nat, nat)>)
    ensures forall a: nat, b: nat :: (a, b) in r <==> Triple(s, a, b) in g
  {
    var firsts := PreIdsBySub(g, s);
    var seconds := map p | p in firsts :: ObjIdsBySubPre(g, s, p);
    PairsFrom(firsts, seconds)
  }

  function PreSubPairsByObj(g: Store, o: nat): (r: seq<(nat, nat)>)
    ensures forall a: nat, b: nat :: (a, b) in r <==> Triple(b, a, o) in g
  {
    var firsts := PreIdsByObj(g, o);
    var seconds := map p | p in firsts :: SubIdsByObjPre(g, o, p);
    PairsFrom(firsts, seconds)
  }
}
