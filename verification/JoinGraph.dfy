/**
 The join graph of a query: its variables and, for each, the neighbours along its edges. Connected sets
 of variables are what the plan search enumerates.
 */
module JoinGraph {

  datatype Graph = Graph(nodes: set<nat>, nei: map<nat, seq<nat>>) {
    /** Every node has its edge list, and each edge is listed at both ends. */
    ghost predicate Valid() {
      && (forall v :: v in nodes ==> v in nei)
      && (forall a, b {:trigger Adjacent(a, b)} :: a in nodes && b in nodes && Adjacent(a, b) ==> Adjacent(b, a))
    }

    predicate Adjacent(a: nat, b: nat) {
      a in nei && b in nei[a]
    }

    predicate Touches(part: set<nat>, v: nat) {
      exists a :: a in part && Adjacent(a, v)
    }

    /** No way to split the set into two parts without an edge between them. */
    ghost predicate Connected(s: set<nat>) {
      s <= nodes && s != {} && forall part :: {} < part < s ==> Linked(part, s - part)
    }

    ghost predicate Linked(a: set<nat>, b: set<nat>) {
      exists x, y :: x in a && y in b && Adjacent(x, y)
    }
  }

  lemma SingleConnected(g: Graph, v: nat)
    requires v in g.nodes
    ensures g.Connected({v})
  {
    forall part | part < {v} ensures part == {} {
      assert v !in part;
    }
  }

  /** A node next to a connected set makes a larger connected set. */
  lemma ExtendConnected(g: Graph, s: set<nat>, v: nat)
    requires g.Valid() && g.Connected(s) && v in g.nodes && v !in s && g.Touches(s, v)
    ensures g.Connected(s + {v})
  {
    var wider := s + {v};
    forall part | {} < part < wider ensures g.Linked(part, wider - part) {
      var inside := part * s;
      var a :| a in s && g.Adjacent(a, v);
      if inside == {} {
        assert part == {v};
        assert v in part && a in wider - part && g.Adjacent(v, a);
      } else if inside == s {
        assert v !in part;
        assert a in part && v in wider - part;
      } else {
        assert g.Linked(inside, s - inside);
        var x, y :| x in inside && y in s - inside && g.Adjacent(x, y);
        assert x in part && y in wider - part;
      }
    }
  }

  lemma SubsetSmaller(a: set<nat>, b: set<nat>)
    requires a < b
    ensures |a| < |b|
  {
    var rest := b - a;
    assert b == a + rest;
    var x :| x in rest;
  }

  lemma SameSize(a: set<nat>, b: set<nat>)
    requires a <= b && |a| == |b|
    ensures a == b
  {
    if a < b {
      SubsetSmaller(a, b);
    }
  }

  /** A connected part of a connected set can be grown until only one node is missing. */
  lemma {:induction false} GrowToAllButOne(g: Graph, s: set<nat>, part: set<nat>) returns (v: nat)
    requires g.Valid() && g.Connected(s) && g.Connected(part) && part < s
    ensures v in s && g.Connected(s - {v})
    decreases |s| - |part|
  {
    SubsetSmaller(part, s);
    assert g.Linked(part, s - part);
    var x, y :| x in part && y in s - part && g.Adjacent(x, y);
    var wider := part + {y};
    if wider == s {
      assert s - {y} == part;
      return y;
    }
    ExtendConnected(g, part, y);
    v := GrowToAllButOne(g, s, wider);
  }

  /** Every connected set with two or more nodes has a node whose removal leaves it connected, and that node touches the rest. */
  lemma RemovableNode(g: Graph, s: set<nat>) returns (v: nat)
    requires g.Valid() && g.Connected(s) && |s| >= 2
    ensures v in s && g.Connected(s - {v}) && g.Touches(s - {v}, v)
  {
    var first :| first in s;
    SingleConnected(g, first);
    assert s != {first};
    v := GrowToAllButOne(g, s, {first});
    assert g.Linked(s - {v}, s - (s - {v}));
    var x, y :| x in s - {v} && y in s - (s - {v}) && g.Adjacent(x, y);
    assert y == v;
  }

  /** A connected set contains connected sets of every smaller size. */
  lemma {:induction false} ConnectedOfSize(g: Graph, s: set<nat>, k: nat) returns (part: set<nat>)
    requires g.Valid() && g.Connected(s) && 1 <= k <= |s|
    ensures part <= s && |part| == k && g.Connected(part)
    decreases |s|
  {
    if |s| == k {
      return s;
    }
    var v := RemovableNode(g, s);
    part := ConnectedOfSize(g, s - {v}, k);
  }

  // ---- the same notion by walks ----

  ghost predicate Walk(g: Graph, s: set<nat>, walk: seq<nat>) {
    && |walk| > 0 && (forall i :: 0 <= i < |walk| ==> walk[i] in s)
    && forall i :: 0 <= i < |walk| - 1 ==> g.Adjacent(walk[i], walk[i + 1])
  }

  ghost predicate Reaches(g: Graph, s: set<nat>, a: nat, b: nat) {
    exists walk :: Walk(g, s, walk) && walk[0] == a && walk[|walk| - 1] == b
  }

  /** A walk that starts inside a part and ends outside of it leaves it over some edge. */
  lemma {:induction false} WalkLeaves(g: Graph, s: set<nat>, part: set<nat>, walk: seq<nat>)
    requires Walk(g, s, walk) && walk[0] in part && walk[|walk| - 1] !in part
    ensures g.Linked(part, s - part)
    decreases |walk|
  {
    assert g.Adjacent(walk[0], walk[1]);
    if walk[1] in part {
      WalkLeaves(g, s, part, walk[1..]);
    }
  }

  lemma ReachedGrows(g: Graph, s: set<nat>, a: nat, x: nat, y: nat)
    requires Reaches(g, s, a, x) && y in s && g.Adjacent(x, y)
    ensures Reaches(g, s, a, y)
  {
    var walk :| Walk(g, s, walk) && walk[0] == a && walk[|walk| - 1] == x;
    var longer := walk + [y];
    assert Walk(g, s, longer) && longer[0] == a && longer[|longer| - 1] == y;
  }

  lemma ConnectedReaches(g: Graph, s: set<nat>, a: nat, b: nat)
    requires g.Connected(s) && a in s && b in s
    ensures Reaches(g, s, a, b)
  {
    var reached := set x | x in s && Reaches(g, s, a, x);
    assert Walk(g, s, [a]) && [a][0] == a;
    assert a in reached;
    if reached != s {
      assert g.Linked(reached, s - reached);
      var x, y :| x in reached && y in s - reached && g.Adjacent(x, y);
      ReachedGrows(g, s, a, x, y);
    }
  }

  lemma ReachesLinked(g: Graph, s: set<nat>, part: set<nat>, a: nat, b: nat)
    requires Reaches(g, s, a, b) && a in part && b in s - part
    ensures g.Linked(part, s - part)
  {
    var walk :| Walk(g, s, walk) && walk[0] == a && walk[|walk| - 1] == b;
    WalkLeaves(g, s, part, walk);
  }

  /** Connected by cuts is connected by walks. */
  lemma ConnectedIffWalks(g: Graph, s: set<nat>)
    requires s <= g.nodes && s != {}
    ensures g.Connected(s) <==> forall a, b :: a in s && b in s ==> Reaches(g, s, a, b)
  {
    if g.Connected(s) {
      forall a, b | a in s && b in s ensures Reaches(g, s, a, b) {
        ConnectedReaches(g, s, a, b);
      }
    }
    if forall a, b :: a in s && b in s ==> Reaches(g, s, a, b) {
      forall part | {} < part < s ensures g.Linked(part, s - part) {
        var a :| a in part;
        assert s == part + (s - part);
        var b :| b in s - part;
        ReachesLinked(g, s, part, a, b);
      }
    }
  }
}
