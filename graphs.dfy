/**
  Vertices, undirected graphs as neighbour maps, cliques, and the sorted
  listing of a vertex set; shared by the sampler, the mapper and the pipeline.
*/
module Graphs {

  type Vertex = int

  /** A graph maps a vertex to the set of its neighbours. */
  type Graph = map<Vertex, set<Vertex>>

  /** Neighbours of `v`; a vertex that is not a key has none (`graph.get(v, set())`). */
  function N(g: Graph, v: Vertex): set<Vertex>
  {
    if v in g then g[v] else {}
  }

  ghost predicate Symmetric(g: Graph)
  {
    forall u, v :: v in N(g, u) ==> u in N(g, v)
  }

  ghost predicate LoopFree(g: Graph)
  {
    forall v :: v !in N(g, v)
  }

  /** Undirected and without self-loops: the shape the clique search assumes. */
  ghost predicate Simple(g: Graph)
  {
    Symmetric(g) && LoopFree(g)
  }

  /** A set of vertices of `g`, every two of which are adjacent. */
  ghost predicate Clique(g: Graph, c: set<Vertex>)
  {
    && c <= g.Keys
    && forall a, b :: a in c && b in c && a != b ==> b in N(g, a)
  }

  /** `w` lies outside `c` and is adjacent to every member of `c`. */
  ghost predicate Extends(g: Graph, c: set<Vertex>, w: Vertex)
  {
    w !in c && forall x :: x in c ==> w in N(g, x)
  }

  /** A clique no vertex extends (such a set is never empty). */
  ghost predicate MaximalClique(g: Graph, c: set<Vertex>)
  {
    Clique(g, c) && forall w :: !Extends(g, c, w)
  }

  predicate Increasing(s: seq<int>)
  {
    forall i, j :: 0 <= i < j < |s| ==> s[i] < s[j]
  }

  function Elems(s: seq<int>): set<int>
  {
    set x | x in s
  }

  /** A non-empty set has a member (the witness `:|` needs). */
  lemma HasMember(s: set<int>)
    requires s != {}
    ensures exists x :: x in s
  {
    if forall x :: x !in s {
      assert false;
    }
  }

  lemma {:induction false} MinExists(s: set<int>)
    requires s != {}
    ensures exists m :: m in s && forall x :: x in s ==> m <= x
    decreases |s|
  {
    HasMember(s);
    var y :| y in s;
    var rest := s - {y};
    if rest == {} {
      forall x | x in s ensures y <= x {
        assert x == y || x in rest;
      }
    } else {
      MinExists(rest);
      var m :| m in rest && forall x :: x in rest ==> m <= x;
      var k := if y < m then y else m;
      forall x | x in s ensures k <= x {
        if x != y { assert x in rest; }
      }
      assert k in s;
    }
  }

  /** The least member of a non-empty set. */
  function Min(s: set<int>): (m: int)
    requires s != {}
    ensures m in s && forall x :: x in s ==> m <= x
  {
    MinExists(s);
    var m :| m in s && forall x :: x in s ==> m <= x;
    m
  }

  /** The members of `s` in ascending order (`sorted(s, key=int)`). */
  function SortedSeq(s: set<int>): (r: seq<int>)
    ensures Increasing(r) && Elems(r) == s && |r| == |s|
    decreases |s|
  {
    if s == {} then []
    else
      var m := Min(s);
      var rest := SortedSeq(s - {m});
      ConsIncreasing(m, rest, s);
      [m] + rest
  }

  lemma ConsIncreasing(m: int, rest: seq<int>, s: set<int>)
    requires m in s && forall x :: x in s ==> m <= x
    requires Increasing(rest) && Elems(rest) == s - {m} && |rest| == |s - {m}|
    ensures Increasing([m] + rest) && Elems([m] + rest) == s && |[m] + rest| == |s|
  {
    var r := [m] + rest;
    forall i, j | 0 <= i < j < |r| ensures r[i] < r[j] {
      assert r[j] == rest[j - 1] && rest[j - 1] in Elems(rest);
      if i > 0 {
        assert r[i] == rest[i - 1];
      }
    }
    forall x | x in s ensures x in Elems(r) {
      if x != m {
        assert x in Elems(rest);
        var k :| 0 <= k < |rest| && rest[k] == x;
        assert r[k + 1] == x;
      }
    }
    forall x | x in Elems(r) ensures x in s {
      var k :| 0 <= k < |r| && r[k] == x;
      if k > 0 {
        assert rest[k - 1] == x && x in Elems(rest);
      }
    }
  }

  /** Every clique is contained in any vertex of it together with that vertex's neighbours. */
  lemma CliqueWithin(g: Graph, c: set<Vertex>, v: Vertex)
    requires Clique(g, c) && v in c
    ensures c <= {v} + N(g, v)
  {
    forall x | x in c ensures x in {v} + N(g, v) {
      if x != v {
        assert x in N(g, v);
      }
    }
  }
}
