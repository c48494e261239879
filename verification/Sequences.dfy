/** Order-preserving concatenation of the lists a function makes out of the elements of a list. */
module Sequences {

  ghost predicate AllIn<A, B>(f: A --> seq<B>, xs: seq<A>) {
    forall x :: x in xs ==> f.requires(x)
  }

  ghost function FlatMap<A, B>(f: A --> seq<B>, xs: seq<A>): seq<B>
    requires AllIn(f, xs)
  {
    if xs == [] then [] else f(xs[0]) + FlatMap(f, xs[1..])
  }

  lemma {:induction false} FlatMapAppend<A, B>(f: A --> seq<B>, xs: seq<A>, ys: seq<A>)
    requires AllIn(f, xs) && AllIn(f, ys)
    ensures AllIn(f, xs + ys)
    ensures FlatMap(f, xs + ys) == FlatMap(f, xs) + FlatMap(f, ys)
  {
    if xs == [] {
      assert xs + ys == ys;
    } else {
      assert (xs + ys)[1..] == xs[1..] + ys;
      FlatMapAppend(f, xs[1..], ys);
      assert f(xs[0]) + (FlatMap(f, xs[1..]) + FlatMap(f, ys)) == (f(xs[0]) + FlatMap(f, xs[1..])) + FlatMap(f, ys);
    }
  }

  lemma FlatMapSingle<A, B>(f: A --> seq<B>, x: A)
    requires f.requires(x)
    ensures AllIn(f, [x]) && FlatMap(f, [x]) == f(x)
  {
    assert [x][1..] == [];
  }

  lemma {:induction false} InFlatMap<A, B>(f: A --> seq<B>, xs: seq<A>, y: B)
    requires AllIn(f, xs)
    ensures y in FlatMap(f, xs) <==> exists x :: x in xs && y in f(x)
  {
    if xs != [] {
      InFlatMap(f, xs[1..], y);
      assert forall x :: x in xs <==> x == xs[0] || x in xs[1..];
    }
  }

  /** A flat map is duplicate free if each list is and no two of them share an element. */
  lemma {:induction false} FlatMapNoDuplicates<A, B>(f: A --> seq<B>, xs: seq<A>)
    requires AllIn(f, xs)
    requires forall i, j :: 0 <= i < j < |xs| ==> xs[i] != xs[j]
    requires forall x :: x in xs ==> forall i, j :: 0 <= i < j < |f(x)| ==> f(x)[i] != f(x)[j]
    requires forall x, x', y :: x in xs && x' in xs && y in f(x) && y in f(x') ==> x == x'
    ensures forall i, j :: 0 <= i < j < |FlatMap(f, xs)| ==> FlatMap(f, xs)[i] != FlatMap(f, xs)[j]
  {
    if xs != [] {
      FlatMapNoDuplicates(f, xs[1..]);
      var head, tail := f(xs[0]), FlatMap(f, xs[1..]);
      forall y | y in head ensures y !in tail {
        InFlatMap(f, xs[1..], y);
      }
      forall i, j | 0 <= i < j < |head + tail| ensures (head + tail)[i] != (head + tail)[j] {
        if i < |head| <= j {
          assert (head + tail)[i] in head && (head + tail)[j] in tail;
        }
      }
    }
  }

  lemma {:induction false} FlatMapSame<A, B>(f: A --> seq<B>, f': A --> seq<B>, xs: seq<A>)
    requires AllIn(f, xs) && AllIn(f', xs)
    requires forall x :: x in xs ==> f(x) == f'(x)
    ensures FlatMap(f, xs) == FlatMap(f', xs)
  {
    if xs != [] {
      FlatMapSame(f, f', xs[1..]);
    }
  }
}
