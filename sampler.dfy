/**
  The sampler (adj.py): read an edge list, choose a vertex set, build the
  subgraph the chosen vertices induce and write it as an adjacency listing.
*/
module Sampler {
  import opened Wrappers
  import opened Graphs
  import opened AdjacencyFile

  // ---------------------------------------------------------------------------
  // Reading the edge list
  // ---------------------------------------------------------------------------

  /**
    One whitespace-separated token of an edge-list line: text `int()`
    accepts, text starting with `#`, or any other text.
  */
  datatype Token = Int(value: int) | Hash | Word

  /** An undirected edge as read, in the order its endpoints were written. */
  datatype Edge = Edge(u: Vertex, v: Vertex)

  /** What one stripped line, split into tokens, contributes. */
  datatype EdgeLine = Ignored | Accepted(edge: Edge) | NotAnInteger

  /**
    A blank line, a comment (its first character, the first of its first
    token, is `#`) or a line of fewer than two tokens contributes nothing;
    otherwise the first two tokens are the endpoints (the rest are ignored),
    and the line is an error when either is not an integer.
  */
  function LineEdge(tokens: seq<Token>): (r: EdgeLine)
    ensures r.Accepted? <==> |tokens| >= 2 && tokens[0].Int? && tokens[1].Int?
    ensures r.Accepted? ==> r.edge == Edge(tokens[0].value, tokens[1].value)
    ensures r.Ignored? <==> tokens == [] || tokens[0].Hash? || |tokens| < 2
  {
    if tokens == [] || tokens[0].Hash? then Ignored
    else if |tokens| < 2 then Ignored
    else if tokens[0].Int? && tokens[1].Int? then Accepted(Edge(tokens[0].value, tokens[1].value))
    else NotAnInteger
  }

  /** The edges the lines contribute, in order. */
  function AcceptedEdges(lines: seq<seq<Token>>): seq<Edge>
    decreases |lines|
  {
    if lines == [] then []
    else
      var last := LineEdge(lines[|lines| - 1]);
      AcceptedEdges(lines[..|lines| - 1]) + (if last.Accepted? then [last.edge] else [])
  }

  /** `AcceptedEdges` is exactly the accepted lines' edges, each at the place of its line. */
  lemma {:induction false} AcceptedEdgesFrom(lines: seq<seq<Token>>, e: Edge)
    ensures e in AcceptedEdges(lines) <==> exists i :: 0 <= i < |lines| && LineEdge(lines[i]) == Accepted(e)
    decreases |lines|
  {
    if lines != [] {
      var front := lines[..|lines| - 1];
      AcceptedEdgesFrom(front, e);
      if exists i :: 0 <= i < |lines| && LineEdge(lines[i]) == Accepted(e) {
        var i :| 0 <= i < |lines| && LineEdge(lines[i]) == Accepted(e);
        if i < |front| {
          assert front[i] == lines[i];
        }
      }
      if exists i :: 0 <= i < |front| && LineEdge(front[i]) == Accepted(e) {
        var i :| 0 <= i < |front| && LineEdge(front[i]) == Accepted(e);
        assert lines[i] == front[i];
      }
    }
  }

  /** The largest endpoint of the edges, and -1 when there is none larger. */
  function MaxEndpoint(edges: seq<Edge>): (m: int)
    ensures m >= -1
    ensures forall i :: 0 <= i < |edges| ==> edges[i].u <= m && edges[i].v <= m
    ensures m == -1 || exists i :: 0 <= i < |edges| && (edges[i].u == m || edges[i].v == m)
    decreases |edges|
  {
    if edges == [] then -1
    else
      var front, e := edges[..|edges| - 1], edges[|edges| - 1];
      var m0 := MaxEndpoint(front);
      assert forall i :: 0 <= i < |front| ==> front[i] == edges[i];
      var m1 := if e.u > m0 then e.u else m0;
      if e.v > m1 then e.v else m1
  }

  /**
    `read_edges` (adj.py lines 6-21): the accepted edges and the largest
    endpoint, or the index of the first line whose endpoints are not both
    integers (`int()` raises there and the script stops).
  */
  method ReadEdges(lines: seq<seq<Token>>) returns (r: Result<(seq<Edge>, int), nat>)
    ensures r.Ok? <==> forall i :: 0 <= i < |lines| ==> !LineEdge(lines[i]).NotAnInteger?
    ensures r.Ok? ==> r.value.0 == AcceptedEdges(lines) && r.value.1 == MaxEndpoint(AcceptedEdges(lines))
    ensures r.Err? ==> r.error < |lines| && LineEdge(lines[r.error]).NotAnInteger? &&
                       forall i :: 0 <= i < r.error ==> !LineEdge(lines[i]).NotAnInteger?
  {
    var edges: seq<Edge> := [];
    var maxNode := -1;
    for k := 0 to |lines|
      invariant edges == AcceptedEdges(lines[..k])
      invariant maxNode == MaxEndpoint(edges)
      invariant forall i :: 0 <= i < k ==> !LineEdge(lines[i]).NotAnInteger?
    {
      var parts := lines[k];
      AcceptedStep(lines, k);
      if parts == [] || parts[0].Hash? {
        continue;
      }
      if |parts| < 2 {
        continue;
      }
      if !parts[0].Int? || !parts[1].Int? {
        return Err(k);
      }
      var u, v := parts[0].value, parts[1].value;
      MaxEndpointStep(edges, Edge(u, v));
      edges := edges + [Edge(u, v)];
      if u > maxNode {
        maxNode := u;
      }
      if v > maxNode {
        maxNode := v;
      }
    }
    assert lines[..|lines|] == lines;
    return Ok((edges, maxNode));
  }

  lemma AcceptedStep(lines: seq<seq<Token>>, k: nat)
    requires k < |lines|
    ensures AcceptedEdges(lines[..k + 1])
            == AcceptedEdges(lines[..k]) + (if LineEdge(lines[k]).Accepted? then [LineEdge(lines[k]).edge] else [])
  {
    assert lines[..k + 1][..k] == lines[..k];
  }

  lemma MaxEndpointStep(edges: seq<Edge>, e: Edge)
    ensures MaxEndpoint(edges + [e])
            == var m1 := if e.u > MaxEndpoint(edges) then e.u else MaxEndpoint(edges); if e.v > m1 then e.v else m1
  {
    assert (edges + [e])[..|edges|] == edges;
  }

  // ---------------------------------------------------------------------------
  // Selecting vertices
  // ---------------------------------------------------------------------------

  /** The `range` selection: the ids `0, …, n - 1`. */
  function RangeNodes(n: int): (s: set<Vertex>)
    ensures forall x :: x in s <==> 0 <= x < n
    ensures |s| == if n > 0 then n else 0
    decreases if n > 0 then n else 0
  {
    if n <= 0 then {}
    else
      var front := RangeNodes(n - 1);
      assert n - 1 !in front;
      front + {n - 1}
  }

  /** Every id that occurs as an endpoint. */
  function Endpoints(edges: seq<Edge>): (s: set<Vertex>)
    ensures forall x :: x in s <==> exists i :: 0 <= i < |edges| && (edges[i].u == x || edges[i].v == x)
    decreases |edges|
  {
    if edges == [] then {}
    else
      var front, e := edges[..|edges| - 1], edges[|edges| - 1];
      assert forall i :: 0 <= i < |front| ==> front[i] == edges[i];
      Endpoints(front) + {e.u, e.v}
  }

  /** The distinct endpoint ids gathered for the `random` selection (adj.py lines 58-60). */
  method DistinctNodes(edges: seq<Edge>) returns (nodes: set<Vertex>)
    ensures nodes == Endpoints(edges)
  {
    nodes := {};
    for k := 0 to |edges|
      invariant nodes == Endpoints(edges[..k])
    {
      assert edges[..k + 1][..k] == edges[..k];
      nodes := nodes + {edges[k].u};
      nodes := nodes + {edges[k].v};
    }
    assert edges[..|edges|] == edges;
  }

  /** The request the `random` selection refuses: more vertices than there are distinct ids. */
  datatype SampleError = TooManyRequested(n: int, distinct: nat)

  /**
    The check of adj.py lines 58-63 before sampling: an error when `n`
    exceeds the number of distinct endpoint ids, otherwise the ascending
    list of those ids that the sample is drawn from.
  */
  method SamplePopulation(edges: seq<Edge>, n: int) returns (r: Result<seq<Vertex>, SampleError>)
    ensures r.Err? <==> n > |Endpoints(edges)|
    ensures r.Err? ==> r.error == TooManyRequested(n, |Endpoints(edges)|)
    ensures r.Ok? ==> Increasing(r.value) && Elems(r.value) == Endpoints(edges) && n <= |r.value|
  {
    var nodes := DistinctNodes(edges);
    if n > |nodes| {
      return Err(TooManyRequested(n, |nodes|));
    }
    return Ok(SortedSeq(nodes));
  }

  /** How many endpoints of the edges are `x`; a self-loop at `x` counts twice. */
  function Incidences(edges: seq<Edge>, x: Vertex): nat
    decreases |edges|
  {
    if edges == [] then 0
    else
      var e := edges[|edges| - 1];
      Incidences(edges[..|edges| - 1], x) + (if e.u == x then 1 else 0) + (if e.v == x then 1 else 0)
  }

  /** A vertex has an incidence exactly when it is an endpoint. */
  lemma {:induction false} IncidencesPositive(edges: seq<Edge>, x: Vertex)
    ensures Incidences(edges, x) > 0 <==> x in Endpoints(edges)
    decreases |edges|
  {
    if edges != [] {
      IncidencesPositive(edges[..|edges| - 1], x);
      assert Endpoints(edges) == Endpoints(edges[..|edges| - 1]) + {edges[|edges| - 1].u, edges[|edges| - 1].v};
    }
  }

  /** Incidences add up over a split of the edge list. */
  lemma {:induction false} IncidencesAppend(a: seq<Edge>, b: seq<Edge>, x: Vertex)
    ensures Incidences(a + b, x) == Incidences(a, x) + Incidences(b, x)
    decreases |b|
  {
    if b == [] {
      assert a + b == a;
    } else {
      assert (a + b)[..|a + b| - 1] == a + b[..|b| - 1];
      assert (a + b)[|a + b| - 1] == b[|b| - 1];
      IncidencesAppend(a, b[..|b| - 1], x);
    }
  }

  /** A count that is 0 for a vertex it has no entry for, as `Counter` reads. */
  function Count(deg: map<Vertex, nat>, x: Vertex): nat
  {
    if x in deg then deg[x] else 0
  }

  /** The degree count of the `topdeg` selection (adj.py lines 68-70). */
  method Degrees(edges: seq<Edge>) returns (deg: map<Vertex, nat>)
    ensures forall x :: Count(deg, x) == Incidences(edges, x)
    ensures deg.Keys == Endpoints(edges)
  {
    deg := map[];
    for k := 0 to |edges|
      invariant forall x :: Count(deg, x) == Incidences(edges[..k], x)
      invariant deg.Keys == Endpoints(edges[..k])
    {
      var e := edges[k];
      assert edges[..k + 1][..k] == edges[..k];
      deg := deg[e.u := Count(deg, e.u) + 1];
      deg := deg[e.v := Count(deg, e.v) + 1];
    }
    assert edges[..|edges|] == edges;
  }

  // ---------------------------------------------------------------------------
  // The induced subgraph
  // ---------------------------------------------------------------------------

  /** Some edge with both endpoints in `ns` joins `a` and `b`, in either direction. */
  ghost predicate Linked(edges: seq<Edge>, ns: set<Vertex>, a: Vertex, b: Vertex)
  {
    exists i :: 0 <= i < |edges| && Joins(edges[i], ns, a, b)
  }

  predicate Joins(e: Edge, ns: set<Vertex>, a: Vertex, b: Vertex)
  {
    e.u in ns && e.v in ns && ((e.u == a && e.v == b) || (e.u == b && e.v == a))
  }

  /**
    `adj` is the subgraph of the edges that `ns` induces: `b` is a neighbour
    of `a` exactly when an edge inside `ns` joins them, and a vertex is a
    key only when it has a neighbour.
  */
  ghost predicate Induced(edges: seq<Edge>, ns: set<Vertex>, adj: Graph)
  {
    && (forall a, b :: b in N(adj, a) <==> Linked(edges, ns, a, b))
    && (forall a :: a in adj ==> adj[a] != {})
  }

  lemma InducedStep(edges: seq<Edge>, k: nat, ns: set<Vertex>, adj: Graph, adj': Graph)
    requires k < |edges| && Induced(edges[..k], ns, adj)
    requires var e := edges[k];
             adj' == if e.u in ns && e.v in ns
                     then var a1 := adj[e.u := N(adj, e.u) + {e.v}]; a1[e.v := N(a1, e.v) + {e.u}]
                     else adj
    ensures Induced(edges[..k + 1], ns, adj')
  {
    var e := edges[k];
    var pre, post := edges[..k], edges[..k + 1];
    assert forall i :: 0 <= i < k ==> post[i] == pre[i];
    assert post[k] == e;
    forall a, b ensures b in N(adj', a) <==> Linked(post, ns, a, b) {
      if Linked(post, ns, a, b) {
        var i :| 0 <= i < |post| && Joins(post[i], ns, a, b);
        if i < k {
          assert Joins(pre[i], ns, a, b);
        }
      }
      if Linked(pre, ns, a, b) {
        var i :| 0 <= i < |pre| && Joins(pre[i], ns, a, b);
        assert Joins(post[i], ns, a, b);
      }
      if Joins(e, ns, a, b) {
        assert Joins(post[k], ns, a, b);
      }
    }
  }

  /** `build_adj_for_nodes` (adj.py lines 23-29): the subgraph of the edges that `ns` induces. */
  method BuildAdj(edges: seq<Edge>, ns: set<Vertex>) returns (adj: Graph)
    ensures Induced(edges, ns, adj)
  {
    adj := map[];
    for k := 0 to |edges|
      invariant Induced(edges[..k], ns, adj)
    {
      var e := edges[k];
      ghost var before := adj;
      if e.u in ns && e.v in ns {
        adj := adj[e.u := N(adj, e.u) + {e.v}];
        adj := adj[e.v := N(adj, e.v) + {e.u}];
      }
      InducedStep(edges, k, ns, before, adj);
    }
    assert edges[..|edges|] == edges;
  }

  /** The induced subgraph is undirected. */
  lemma InducedSymmetric(edges: seq<Edge>, ns: set<Vertex>, adj: Graph)
    requires Induced(edges, ns, adj)
    ensures Symmetric(adj)
  {
    forall u, v | v in N(adj, u) ensures u in N(adj, v) {
      var i :| 0 <= i < |edges| && Joins(edges[i], ns, u, v);
      assert Joins(edges[i], ns, v, u);
    }
  }

  /** Every key and every neighbour of the induced subgraph is a chosen vertex. */
  lemma InducedWithin(edges: seq<Edge>, ns: set<Vertex>, adj: Graph)
    requires Induced(edges, ns, adj)
    ensures adj.Keys <= ns
    ensures forall a :: a in adj ==> adj[a] <= ns
  {
    forall a | a in adj ensures a in ns && adj[a] <= ns {
      HasMember(adj[a]);
      var b :| b in adj[a];
      assert b in N(adj, a);
      forall c | c in adj[a] ensures c in ns {
        assert c in N(adj, a);
        var i :| 0 <= i < |edges| && Joins(edges[i], ns, a, c);
      }
      var i :| 0 <= i < |edges| && Joins(edges[i], ns, a, b);
    }
  }

  /** Without self-loops among the edges the induced subgraph is simple. */
  lemma InducedSimple(edges: seq<Edge>, ns: set<Vertex>, adj: Graph)
    requires Induced(edges, ns, adj)
    requires forall i :: 0 <= i < |edges| ==> edges[i].u != edges[i].v
    ensures Simple(adj)
  {
    InducedSymmetric(edges, ns, adj);
    forall v ensures v !in N(adj, v) {
      forall i | 0 <= i < |edges| ensures !Joins(edges[i], ns, v, v) {
      }
      assert !Linked(edges, ns, v, v);
    }
  }

  /** `Induced` determines the subgraph. */
  lemma InducedUnique(edges: seq<Edge>, ns: set<Vertex>, g1: Graph, g2: Graph)
    requires Induced(edges, ns, g1) && Induced(edges, ns, g2)
    ensures g1 == g2
  {
    forall a ensures N(g1, a) == N(g2, a) {
      forall b ensures b in N(g1, a) <==> b in N(g2, a) {
      }
    }
    forall a ensures a in g1 <==> a in g2 {
      assert a in g1 <==> N(g1, a) != {};
      assert a in g2 <==> N(g2, a) != {};
    }
    forall a | a in g1 ensures g1[a] == g2[a] {
      assert N(g1, a) == N(g2, a);
    }
  }

  // ---------------------------------------------------------------------------
  // Writing the adjacency listing
  // ---------------------------------------------------------------------------

  /**
    `lines` lists `adj`: one line per vertex, in ascending vertex order, each
    the vertex, a tab and its neighbours in ascending order.
  */
  ghost predicate Listing(adj: Graph, lines: seq<AdjLine>)
  {
    && |lines| == |adj|
    && (forall i :: 0 <= i < |lines| ==> Head(lines[i]) in adj && lines[i] == ListingLine(Head(lines[i]), adj[Head(lines[i])]))
    && (forall i, j :: 0 <= i < j < |lines| ==> Head(lines[i]) < Head(lines[j]))
    && (forall v :: v in adj ==> exists i :: 0 <= i < |lines| && Head(lines[i]) == v)
  }

  /** `write_adjlist` (adj.py lines 31-36): the lines of the listing, in order. */
  method WriteAdjList(adj: Graph) returns (lines: seq<AdjLine>)
    ensures Listing(adj, lines)
  {
    var keys := SortedSeq(adj.Keys);
    lines := [];
    for i := 0 to |keys|
      invariant |lines| == i
      invariant forall j :: 0 <= j < i ==>
                  keys[j] in adj && Head(lines[j]) == keys[j] && lines[j] == ListingLine(keys[j], adj[keys[j]])
    {
      assert keys[i] in Elems(keys);
      lines := lines + [ListingLine(keys[i], adj[keys[i]])];
    }
    forall v | v in adj ensures exists i :: 0 <= i < |lines| && Head(lines[i]) == v {
      assert v in Elems(keys);
      var i :| 0 <= i < |keys| && keys[i] == v;
      assert Head(lines[i]) == v;
    }
    assert |adj.Keys| == |adj|;
  }
}
