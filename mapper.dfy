/**
  The map stage: load the adjacency file into a neighbour map, then, for each
  start vertex read from the input, enumerate the maximal cliques through it
  with the Bron–Kerbosch search with Tomita pivoting and emit one record per
  clique.
*/
module Mapper {
  import opened Wrappers
  import opened Graphs
  import opened AdjacencyFile

  // ---------------------------------------------------------------------------
  // Loading the adjacency file
  // ---------------------------------------------------------------------------

  /**
    One adjacency line: strip it; a blank line, a line that does not split
    into exactly two fields, or one whose vertex field is not a single id
    declares nothing; otherwise the vertex and the set of listed neighbours
    (none for an empty neighbour field).
  */
  function ParseAdjLine(line: AdjLine): (d: Declaration)
    ensures d.Some? ==> d.value.1 != {}
  {
    var parts := Strip(line);
    if parts == [] then None
    else if |parts| != 2 then None
    else if |parts[0]| != 1 then None
    else
      var nbrs := parts[1];
      // stripping removed an empty last field, so the neighbour field is never empty
      assert nbrs[0] in Elems(nbrs);
      Some((parts[0][0], if nbrs == [] then {} else Elems(nbrs)))
  }

  /** What one line declares: a vertex and its neighbours, or nothing. */
  type Declaration = Option<(Vertex, set<Vertex>)>

  /** The declaration of every line, in order. */
  function ParseAll(lines: seq<AdjLine>): (ds: seq<Declaration>)
    ensures |ds| == |lines|
  {
    if lines == [] then [] else [ParseAdjLine(lines[0])] + ParseAll(lines[1..])
  }

  /** Declaration `i` is that of line `i`. */
  lemma {:induction false} ParseAllAt(lines: seq<AdjLine>, i: nat)
    requires i < |lines|
    ensures ParseAll(lines)[i] == ParseAdjLine(lines[i])
    decreases i
  {
    if i > 0 {
      ParseAllAt(lines[1..], i - 1);
    }
  }

  predicate Declares(d: Declaration, v: Vertex)
  {
    d.Some? && d.value.0 == v
  }

  /** Declaration `i`, among the first `n`, is the last one to declare `v`. */
  ghost predicate LastDeclaration(ds: seq<Declaration>, n: nat, i: int, v: Vertex)
    requires n <= |ds|
  {
    0 <= i < n && Declares(ds[i], v) && forall j :: i < j < n ==> !Declares(ds[j], v)
  }

  /**
    `g` is what the first `n` declarations load to: every declared vertex is
    a key, and every key is mapped to the neighbours of the LAST declaration
    of it (so a later line replaces an earlier one).
  */
  ghost predicate LoadedPrefix(ds: seq<Declaration>, n: nat, g: Graph)
    requires n <= |ds|
  {
    && (forall i :: 0 <= i < n && ds[i].Some? ==> ds[i].value.0 in g)
    && (forall v :: v in g ==> exists i :: LastDeclaration(ds, n, i, v) && ds[i].value.1 == g[v])
  }

  /** `g` is the graph the adjacency lines load to. */
  ghost predicate Loaded(lines: seq<AdjLine>, g: Graph)
  {
    LoadedPrefix(ParseAll(lines), |lines|, g)
  }

  /**
    A line declares something exactly when, once its empty end fields are
    stripped, it has two fields and the first is a single id; it then
    declares that id with the ids of the second field.
  */
  lemma ParseAdjLineFields(line: AdjLine, i: int, j: int)
    requires StrippedAt(line, i, j)
    ensures ParseAdjLine(line) == if j - i == 2 && |line[i]| == 1 then Some((line[i][0], Elems(line[i + 1]))) else None
  {
    var i', j' :| StrippedAt(line, i', j') && Strip(line) == line[i'..j'];
    if i < j {
      assert Strip(line) != [] by {
        assert 0 <= i < |line| && line[i] != [];
      }
      assert i' < j';
      assert line[i'] != [] && line[j' - 1] != [];
      assert i' == i && j' == j;
    } else {
      assert forall k :: 0 <= k < |line| ==> line[k] == [];
    }
  }

  /** So the line `v TAB` of an isolated vertex declares nothing. */
  lemma IsolatedVertexLineSkipped(v: Vertex)
    ensures ParseAdjLine([[v], []]) == None
  {
    assert TrimLeading([[v], []]) == [[v], []];
    assert TrimTrailing([[v], []]) == [[v]];
  }

  /** Reads the adjacency lines into a graph (mapper.py lines 9-20). */
  method LoadGraph(lines: seq<AdjLine>) returns (g: Graph)
    ensures Loaded(lines, g)
    ensures forall v :: v in g ==> g[v] != {}
  {
    ghost var ds := ParseAll(lines);
    g := map[];
    for k := 0 to |lines|
      invariant LoadedPrefix(ds, k, g)
      invariant forall v :: v in g ==> g[v] != {}
    {
      var parsed := ParseAdjLine(lines[k]);
      ParseAllAt(lines, k);
      if parsed.Some? {
        var (node, nbrs) := parsed.value;
        LoadDeclaring(ds, k, g);
        g := g[node := nbrs];
      } else {
        LoadSkipping(ds, k, g);
      }
    }
  }

  lemma LoadSkipping(ds: seq<Declaration>, k: nat, g: Graph)
    requires k < |ds| && LoadedPrefix(ds, k, g)
    requires ds[k].None?
    ensures LoadedPrefix(ds, k + 1, g)
  {
    forall v | v in g
      ensures exists i :: LastDeclaration(ds, k + 1, i, v) && ds[i].value.1 == g[v]
    {
      var i :| LastDeclaration(ds, k, i, v) && ds[i].value.1 == g[v];
      assert LastDeclaration(ds, k + 1, i, v);
    }
  }

  lemma LoadDeclaring(ds: seq<Declaration>, k: nat, g: Graph)
    requires k < |ds| && LoadedPrefix(ds, k, g)
    requires ds[k].Some?
    ensures LoadedPrefix(ds, k + 1, g[ds[k].value.0 := ds[k].value.1])
  {
    var (node, nbrs) := ds[k].value;
    var g' := g[node := nbrs];
    assert Declares(ds[k], node);
    forall v | v in g'
      ensures exists i :: LastDeclaration(ds, k + 1, i, v) && ds[i].value.1 == g'[v]
    {
      if v == node {
        assert LastDeclaration(ds, k + 1, k, v);
      } else {
        var i :| LastDeclaration(ds, k, i, v) && ds[i].value.1 == g[v];
        assert LastDeclaration(ds, k + 1, i, v);
      }
    }
  }

  /** The load is determined by the lines: `Loaded` is a complete description of it. */
  lemma LoadedUnique(lines: seq<AdjLine>, g1: Graph, g2: Graph)
    requires Loaded(lines, g1) && Loaded(lines, g2)
    ensures g1 == g2
  {
    var ds := ParseAll(lines);
    var n := |lines|;
    forall v ensures v in g1 <==> v in g2 {
      if v in g1 {
        var i :| LastDeclaration(ds, n, i, v) && ds[i].value.1 == g1[v];
      }
      if v in g2 {
        var i :| LastDeclaration(ds, n, i, v) && ds[i].value.1 == g2[v];
      }
    }
    forall v | v in g1 ensures g1[v] == g2[v] {
      var i1 :| LastDeclaration(ds, n, i1, v) && ds[i1].value.1 == g1[v];
      var i2 :| LastDeclaration(ds, n, i2, v) && ds[i2].value.1 == g2[v];
      assert i1 == i2;
    }
  }

  // ---------------------------------------------------------------------------
  // Clique records
  // ---------------------------------------------------------------------------

  /** One output line `size TAB members`: the size and the members, comma-joined. */
  datatype CliqueRecord = CliqueRecord(size: int, members: seq<Vertex>)

  /** The record printed for `r`: its size and its members in ascending numeric order. */
  function Emit(r: set<Vertex>): (rec: CliqueRecord)
    ensures rec.size == |r| && Increasing(rec.members) && Elems(rec.members) == r
  {
    CliqueRecord(|r|, SortedSeq(r))
  }

  function Members(rec: CliqueRecord): set<Vertex>
  {
    Elems(rec.members)
  }

  /** Different vertex sets are printed as different records. */
  lemma EmitInjective(a: set<Vertex>, b: set<Vertex>)
    requires Emit(a) == Emit(b)
    ensures a == b
  {
    assert a == Members(Emit(a)) && b == Members(Emit(b));
  }

  // ---------------------------------------------------------------------------
  // Bron–Kerbosch search with pivoting
  // ---------------------------------------------------------------------------

  /**
    The frame invariant of one search call: `r` is a non-empty clique, `p`
    and `x` are disjoint, and together they hold exactly the vertices that
    extend `r`.
  */
  ghost predicate Frame(g: Graph, r: set<Vertex>, p: set<Vertex>, x: set<Vertex>)
  {
    && r != {}
    && Clique(g, r)
    && p !! x
    && forall w :: (w in p || w in x) <==> Extends(g, r, w)
  }

  /** A maximal clique the call with `r` and `p` is responsible for reporting. */
  ghost predicate Candidate(g: Graph, r: set<Vertex>, p: set<Vertex>, c: set<Vertex>)
  {
    MaximalClique(g, c) && r <= c && c <= r + p
  }

  /**
    Every record is the record of its member set, and that set lies between
    `lo` and `hi`.
  */
  predicate RecordsWithin(out: seq<CliqueRecord>, lo: set<Vertex>, hi: set<Vertex>)
  {
    forall i :: 0 <= i < |out| ==> RecordWithin(out[i], lo, hi)
  }

  predicate RecordWithin(rec: CliqueRecord, lo: set<Vertex>, hi: set<Vertex>)
  {
    rec == Emit(Members(rec)) && lo <= Members(rec) <= hi
  }

  /**
    `out` holds the record of each maximal clique the call with `r` and `p`
    is responsible for exactly once, and no other clique's record.
  */
  ghost predicate ReportsExactly(g: Graph, r: set<Vertex>, p: set<Vertex>, out: seq<CliqueRecord>)
  {
    forall c :: multiset(out)[Emit(c)] == if Candidate(g, r, p, c) then 1 else 0
  }

  /** As `ReportsExactly`, restricted to the cliques that meet `d`. */
  ghost predicate ReportsMeeting(g: Graph, r: set<Vertex>, p: set<Vertex>, d: set<Vertex>, out: seq<CliqueRecord>)
  {
    forall c :: multiset(out)[Emit(c)] == if Candidate(g, r, p, c) && c * d != {} then 1 else 0
  }

  /** `u`, taken from `cands`, has the most neighbours in `p`. */
  predicate IsPivot(g: Graph, p: set<Vertex>, cands: set<Vertex>, u: Vertex)
  {
    u in cands && forall w :: w in cands ==> |p * N(g, w)| <= |p * N(g, u)|
  }

  /** `max` over a non-empty candidate set always finds a pivot. */
  lemma {:induction false} PivotExists(g: Graph, p: set<Vertex>, cands: set<Vertex>)
    requires cands != {}
    ensures exists u :: IsPivot(g, p, cands, u)
    decreases |cands|
  {
    HasMember(cands);
    var y :| y in cands;
    var rest := cands - {y};
    if rest == {} {
      forall w | w in cands ensures |p * N(g, w)| <= |p * N(g, y)| {
        assert w == y || w in rest;
      }
      assert IsPivot(g, p, cands, y);
    } else {
      PivotExists(g, p, rest);
      var m :| IsPivot(g, p, rest, m);
      var k := if |p * N(g, m)| < |p * N(g, y)| then y else m;
      forall w | w in cands ensures |p * N(g, w)| <= |p * N(g, k)| {
        assert w == y || w in rest;
      }
      assert IsPivot(g, p, cands, k);
    }
  }

  lemma SubsetCard(a: set<Vertex>, b: set<Vertex>)
    requires a <= b
    ensures |a| <= |b|
  {
    assert b == a + (b - a);
  }

  /**
    Every vertex the loop visits shrinks the candidate set of the recursive
    call, whatever the graph: this is the termination measure.
  */
  lemma PivotShrinks(g: Graph, p0: set<Vertex>, cands: set<Vertex>, u: Vertex, v: Vertex, p: set<Vertex>)
    requires IsPivot(g, p0, cands, u) && v in cands
    requires v in p0 - N(g, u) && p <= p0
    ensures |p * N(g, v)| < |p0|
  {
    SubsetCard(p * N(g, v), p0 * N(g, v));
    SubsetCard(p0 * N(g, u), p0 - {v});
  }

  /** The callee's frame: `r + {v}` with the candidates and excluded vertices adjacent to `v`. */
  lemma FrameDescend(g: Graph, r: set<Vertex>, p: set<Vertex>, x: set<Vertex>, v: Vertex)
    requires Simple(g) && Frame(g, r, p, x) && v in p
    ensures Frame(g, r + {v}, p * N(g, v), x * N(g, v))
  {
    var r' := r + {v};
    assert Extends(g, r, v);
    HasMember(r);
    var a :| a in r;
    assert v in N(g, a) && a in N(g, v);
    assert v in g;
    forall w ensures (w in p * N(g, v) || w in x * N(g, v)) <==> Extends(g, r', w) {
      if Extends(g, r', w) {
        assert Extends(g, r, w);
      }
      if w in N(g, v) {
        assert w != v;
      }
    }
  }

  /** Moving a visited vertex from the candidates to the excluded set keeps the frame. */
  lemma FrameMove(g: Graph, r: set<Vertex>, p: set<Vertex>, x: set<Vertex>, v: Vertex)
    requires Frame(g, r, p, x) && v in p
    ensures Frame(g, r, p - {v}, x + {v})
  {
  }

  /**
    At a leaf (no candidates) the only possible clique is `r` itself, and it
    is maximal exactly when nothing is excluded either.
  */
  lemma LeafCandidates(g: Graph, r: set<Vertex>, x: set<Vertex>, c: set<Vertex>)
    requires Frame(g, r, {}, x)
    ensures Candidate(g, r, {}, c) <==> x == {} && c == r
  {
    assert Candidate(g, r, {}, c) ==> c == r;
    if x != {} {
      HasMember(x);
      var w :| w in x;
      assert !MaximalClique(g, r) by {
        assert Extends(g, r, w);
      }
    }
  }

  /** What a leaf call reports, counted per clique. */
  lemma LeafCount(g: Graph, r: set<Vertex>, x: set<Vertex>, out: seq<CliqueRecord>)
    requires Frame(g, r, {}, x)
    requires out == if x == {} then [Emit(r)] else []
    ensures ReportsExactly(g, r, {}, out)
  {
    forall c ensures multiset(out)[Emit(c)] == if Candidate(g, r, {}, c) then 1 else 0 {
      LeafCandidates(g, r, x, c);
      if Emit(c) == Emit(r) {
        EmitInjective(c, r);
      }
    }
  }

  /**
    Visiting `v` after the vertices `done`: the maximal cliques reported so
    far (those meeting `done`) and those the recursive call reports are
    disjoint, and together they are the ones meeting `done + {v}`.
  */
  lemma BranchSplit(g: Graph, r: set<Vertex>, p0: set<Vertex>, x0: set<Vertex>, p: set<Vertex>,
                    done: set<Vertex>, v: Vertex, c: set<Vertex>)
    requires Simple(g) && Frame(g, r, p0, x0)
    requires done <= p0 && p == p0 - done && v in p
    ensures !(Candidate(g, r, p0, c) && c * done != {} && Candidate(g, r + {v}, p * N(g, v), c))
    ensures (Candidate(g, r, p0, c) && c * (done + {v}) != {})
            <==> (Candidate(g, r, p0, c) && c * done != {}) || Candidate(g, r + {v}, p * N(g, v), c)
  {
    if Candidate(g, r + {v}, p * N(g, v), c) {
      forall y | y in c ensures y !in done {
        if y in r {
          assert !Extends(g, r, y);
        }
      }
      assert c * done == {};
      assert v in c * (done + {v});
    }
    if Candidate(g, r, p0, c) && c * done == {} && c * (done + {v}) != {} {
      HasMember(c * (done + {v}));
      var y :| y in c * (done + {v});
      assert y == v;
      forall y | y in c ensures y in r + {v} + p * N(g, v) {
        if y !in r && y != v {
          assert y in p0 && y !in done;
          assert y in N(g, v);
        }
      }
    }
  }

  /** A pivot whose neighbourhood covers all of `c - r` would extend `c`. */
  lemma PivotExtends(g: Graph, r: set<Vertex>, p0: set<Vertex>, x0: set<Vertex>, u: Vertex, c: set<Vertex>)
    requires Simple(g) && Frame(g, r, p0, x0) && u in p0 + x0
    requires Clique(g, c) && r <= c <= r + p0 && c * (p0 - N(g, u)) == {}
    ensures Extends(g, c, u)
  {
    assert Extends(g, r, u);
    forall y | y in c ensures u in N(g, y) && y != u {
      assert y !in c * (p0 - N(g, u));
      if y !in r {
        assert y in N(g, u);
      }
    }
  }

  /**
    Tomita's pivot rule loses no clique: every maximal clique the call is
    responsible for contains a vertex of `p0 - N(u)`, the vertices the loop
    visits.
  */
  lemma PivotCovers(g: Graph, r: set<Vertex>, p0: set<Vertex>, x0: set<Vertex>, u: Vertex, c: set<Vertex>)
    requires Simple(g) && Frame(g, r, p0, x0) && u in p0 + x0
    requires Candidate(g, r, p0, c)
    ensures c * (p0 - N(g, u)) != {}
  {
    if c * (p0 - N(g, u)) == {} {
      PivotExtends(g, r, p0, x0, u, c);
      assert false;
    }
  }

  /** Adding the records of the call for `v` to those of the vertices visited before it. */
  lemma CountStep(g: Graph, r: set<Vertex>, p0: set<Vertex>, x0: set<Vertex>, p: set<Vertex>,
                  done: set<Vertex>, v: Vertex, out: seq<CliqueRecord>, sub: seq<CliqueRecord>)
    requires Simple(g) && Frame(g, r, p0, x0)
    requires done <= p0 && p == p0 - done && v in p
    requires ReportsMeeting(g, r, p0, done, out)
    requires ReportsExactly(g, r + {v}, p * N(g, v), sub)
    ensures ReportsMeeting(g, r, p0, done + {v}, out + sub)
  {
    forall c ensures multiset(out + sub)[Emit(c)]
                     == if Candidate(g, r, p0, c) && c * (done + {v}) != {} then 1 else 0 {
      assert multiset(out + sub) == multiset(out) + multiset(sub);
      BranchSplit(g, r, p0, x0, p, done, v, c);
    }
  }

  /** Once every vertex of `p0 - N(u)` is visited, each responsible clique has been counted. */
  lemma CountFinish(g: Graph, r: set<Vertex>, p0: set<Vertex>, x0: set<Vertex>, u: Vertex, out: seq<CliqueRecord>)
    requires Simple(g) && Frame(g, r, p0, x0) && u in p0 + x0
    requires ReportsMeeting(g, r, p0, p0 - N(g, u), out)
    ensures ReportsExactly(g, r, p0, out)
  {
    forall c ensures multiset(out)[Emit(c)] == if Candidate(g, r, p0, c) then 1 else 0 {
      if Candidate(g, r, p0, c) {
        PivotCovers(g, r, p0, x0, u, c);
      }
    }
  }

  /** The bookkeeping of one iteration: `v` leaves the snapshot and moves from `p` to `x`. */
  lemma MoveStep(p0: set<Vertex>, x0: set<Vertex>, visit: set<Vertex>, todo: set<Vertex>, v: Vertex,
                 p: set<Vertex>, x: set<Vertex>)
    requires todo <= visit && v in todo
    requires p == p0 - (visit - todo) && x == x0 + (visit - todo)
    ensures visit - (todo - {v}) == (visit - todo) + {v}
    ensures p - {v} == p0 - (visit - (todo - {v})) && x + {v} == x0 + (visit - (todo - {v}))
  {
  }

  /** The records of the call for `v` lie between `r` and `r + p0` too. */
  lemma RecordsStep(r: set<Vertex>, p0: set<Vertex>, p: set<Vertex>, nv: set<Vertex>, v: Vertex,
                    out: seq<CliqueRecord>, sub: seq<CliqueRecord>)
    requires p <= p0 && v in p
    requires RecordsWithin(out, r, r + p0)
    requires RecordsWithin(sub, r + {v}, r + {v} + p * nv)
    ensures RecordsWithin(out + sub, r, r + p0)
  {
    forall i | 0 <= i < |out + sub| ensures RecordWithin((out + sub)[i], r, r + p0) {
      if i >= |out| {
        assert (out + sub)[i] == sub[i - |out|];
        assert RecordWithin(sub[i - |out|], r + {v}, r + {v} + p * nv);
      } else {
        assert (out + sub)[i] == out[i];
      }
    }
  }

  /**
    One iteration of the loop over `p0 - N(u)`: after visiting `v` and
    appending the records of its call, the loop invariants hold again.
  */
  lemma VisitStep(g: Graph, r: set<Vertex>, p0: set<Vertex>, x0: set<Vertex>, visit: set<Vertex>,
                  todo: set<Vertex>, p: set<Vertex>, x: set<Vertex>, v: Vertex,
                  out: seq<CliqueRecord>, sub: seq<CliqueRecord>, ok: bool)
    requires todo <= visit && visit <= p0 && v in todo
    requires p == p0 - (visit - todo) && x == x0 + (visit - todo)
    requires RecordsWithin(out, r, r + p0)
    requires RecordsWithin(sub, r + {v}, r + {v} + p * N(g, v))
    requires ok ==> Simple(g) && Frame(g, r, p0, x0) && Frame(g, r, p, x)
    requires ok ==> ReportsMeeting(g, r, p0, visit - todo, out)
    requires ok ==> ReportsExactly(g, r + {v}, p * N(g, v), sub)
    ensures p - {v} == p0 - (visit - (todo - {v})) && x + {v} == x0 + (visit - (todo - {v}))
    ensures RecordsWithin(out + sub, r, r + p0)
    ensures ok ==> Frame(g, r, p - {v}, x + {v})
    ensures ok ==> ReportsMeeting(g, r, p0, visit - (todo - {v}), out + sub)
  {
    MoveStep(p0, x0, visit, todo, v, p, x);
    RecordsStep(r, p0, p, N(g, v), v, out, sub);
    if ok {
      CountStep(g, r, p0, x0, p, visit - todo, v, out, sub);
      FrameMove(g, r, p, x, v);
    }
  }

  /**
    The recursive search (mapper.py lines 25-45): report `r` at a leaf with
    nothing excluded, otherwise pick a pivot `u` from `p0 + x0` and branch on
    the candidates that are not neighbours of `u`.
  */
  method BronKerbosch(g: Graph, R: set<Vertex>, P0: set<Vertex>, X0: set<Vertex>)
    returns (out: seq<CliqueRecord>)
    ensures P0 == {} && X0 == {} ==> out == [Emit(R)]
    ensures P0 == {} && X0 != {} ==> out == []
    ensures RecordsWithin(out, R, R + P0)
    ensures Simple(g) && Frame(g, R, P0, X0) ==> ReportsExactly(g, R, P0, out)
    decreases |P0|, 1
  {
    ghost var ok := Simple(g) && Frame(g, R, P0, X0);
    if P0 == {} && X0 == {} {
      out := [Emit(R)];
      if ok {
        LeafCount(g, R, X0, out);
      }
      return;
    }
    if P0 == {} {
      out := [];
      if ok {
        LeafCount(g, R, X0, out);
      }
      return;
    }
    PivotExists(g, P0, P0 + X0);
    var u :| IsPivot(g, P0, P0 + X0, u);
    out := VisitNonNeighbours(g, R, P0, X0, u);
    if ok {
      CountFinish(g, R, P0, X0, u, out);
    }
  }

  /**
    The loop of the search over a snapshot of `p0 - N(u)`: each visited `v`
    is searched with `r + {v}` and the candidates and excluded vertices
    adjacent to it, then moved from the candidates to the excluded set. It
    reports the responsible cliques that contain a visited vertex.
  */
  method VisitNonNeighbours(g: Graph, R: set<Vertex>, P0: set<Vertex>, X0: set<Vertex>, u: Vertex)
    returns (out: seq<CliqueRecord>)
    requires IsPivot(g, P0, P0 + X0, u)
    ensures RecordsWithin(out, R, R + P0)
    ensures Simple(g) && Frame(g, R, P0, X0) ==> ReportsMeeting(g, R, P0, P0 - N(g, u), out)
    decreases |P0|, 0
  {
    ghost var ok := Simple(g) && Frame(g, R, P0, X0);
    var L := P0 - N(g, u);
    var P, X, todo := P0, X0, L;
    out := [];
    while todo != {}
      invariant todo <= L && L <= P0
      invariant P == P0 - (L - todo) && X == X0 + (L - todo)
      invariant P0 !! X0 ==> P !! X
      invariant RecordsWithin(out, R, R + P0)
      invariant ok ==> Frame(g, R, P, X)
      invariant ok ==> ReportsMeeting(g, R, P0, L - todo, out)
      decreases |todo|
    {
      HasMember(todo);
      var v :| v in todo;
      var Nv := N(g, v);
      PivotShrinks(g, P0, P0 + X0, u, v, P);
      if ok {
        FrameDescend(g, R, P, X, v);
      }
      var sub := BronKerbosch(g, R + {v}, P * Nv, X * Nv);
      VisitStep(g, R, P0, X0, L, todo, P, X, v, out, sub, ok);
      out := out + sub;
      P := P - {v};
      X := X + {v};
      todo := todo - {v};
    }
  }

  /**
    A vertex of the graph without neighbours forms a maximal clique on its
    own, the only one containing it; its record has size 1.
  */
  lemma IsolatedVertexClique(g: Graph, v: Vertex, c: set<Vertex>)
    requires v in g && N(g, v) == {}
    ensures MaximalClique(g, {v}) && Emit({v}).size == 1
    ensures MaximalClique(g, c) && v in c ==> c == {v}
  {
    forall w ensures !Extends(g, {v}, w) {
      if w != v {
        assert w !in N(g, v);
      }
    }
    if MaximalClique(g, c) && v in c {
      CliqueWithin(g, c, v);
    }
  }

  // ---------------------------------------------------------------------------
  // The driver
  // ---------------------------------------------------------------------------

  /** How many of the start vertices, counted with repetition, lie in `c`. */
  function StartsIn(starts: seq<Vertex>, c: set<Vertex>): (n: nat)
    ensures n <= |starts|
    ensures n == 0 <==> forall i :: 0 <= i < |starts| ==> starts[i] !in c
  {
    if starts == [] then 0
    else
      var last := starts[|starts| - 1];
      var front := starts[..|starts| - 1];
      assert forall i :: 0 <= i < |front| ==> front[i] == starts[i];
      StartsIn(front, c) + (if last in c then 1 else 0)
  }

  /** A start vertex of a simple graph opens a well-formed search frame. */
  lemma InitialFrame(g: Graph, s: Vertex)
    requires Simple(g) && s in g
    ensures Frame(g, {s}, N(g, s), {})
  {
    assert Clique(g, {s});
    forall w ensures w in N(g, s) <==> Extends(g, {s}, w) {
      if w in N(g, s) {
        assert w != s;
      }
    }
  }

  /** The search started at `s` is responsible for exactly the maximal cliques containing `s`. */
  lemma StartCandidates(g: Graph, s: Vertex, c: set<Vertex>)
    ensures Candidate(g, {s}, N(g, s), c) <==> MaximalClique(g, c) && s in c
  {
    if MaximalClique(g, c) && s in c {
      CliqueWithin(g, c, s);
    }
  }

  /** Every record is the record of its member set, and that set contains a start vertex of `g`. */
  ghost predicate RecordsFrom(g: Graph, starts: seq<Vertex>, out: seq<CliqueRecord>)
  {
    forall i :: 0 <= i < |out| ==>
      out[i] == Emit(Members(out[i])) &&
      exists j :: 0 <= j < |starts| && starts[j] in g && starts[j] in Members(out[i])
  }

  /** Each maximal clique is reported once per start vertex it contains. */
  ghost predicate ReportsPerStart(g: Graph, starts: seq<Vertex>, out: seq<CliqueRecord>)
  {
    forall c :: multiset(out)[Emit(c)] == if MaximalClique(g, c) then StartsIn(starts, c) else 0
  }

  /** The records of the search from `starts[k]`, or none when it is not a vertex, contain a start. */
  lemma DriverRecordsStep(g: Graph, starts: seq<Vertex>, k: nat, out: seq<CliqueRecord>, sub: seq<CliqueRecord>)
    requires k < |starts|
    requires RecordsFrom(g, starts[..k], out)
    requires starts[k] in g ==> RecordsWithin(sub, {starts[k]}, {starts[k]} + N(g, starts[k]))
    requires starts[k] !in g ==> sub == []
    ensures RecordsFrom(g, starts[..k + 1], out + sub)
  {
    var s := starts[k];
    var pre, post := starts[..k], starts[..k + 1];
    assert post[..k] == pre && post[k] == s;
    forall i | 0 <= i < |out + sub|
      ensures (out + sub)[i] == Emit(Members((out + sub)[i])) &&
              exists j :: 0 <= j < |post| && post[j] in g && post[j] in Members((out + sub)[i])
    {
      if i < |out| {
        assert (out + sub)[i] == out[i];
        var j :| 0 <= j < |pre| && pre[j] in g && pre[j] in Members(out[i]);
        assert post[j] == pre[j];
      } else {
        assert (out + sub)[i] == sub[i - |out|];
        assert s in g && RecordWithin(sub[i - |out|], {s}, {s} + N(g, s));
        assert post[k] in Members((out + sub)[i]);
      }
    }
    assert RecordsFrom(g, post, out + sub);
  }

  /** On a simple graph the search from `starts[k]` adds one report per maximal clique containing it. */
  lemma DriverCountStep(g: Graph, starts: seq<Vertex>, k: nat, out: seq<CliqueRecord>, sub: seq<CliqueRecord>)
    requires k < |starts| && Simple(g)
    requires starts[k] !in g ==> sub == []
    requires ReportsPerStart(g, starts[..k], out)
    requires starts[k] in g ==> ReportsExactly(g, {starts[k]}, N(g, starts[k]), sub)
    ensures ReportsPerStart(g, starts[..k + 1], out + sub)
  {
    var s := starts[k];
    var pre, post := starts[..k], starts[..k + 1];
    assert post[..|post| - 1] == pre && post[|post| - 1] == s;
    forall c ensures multiset(out + sub)[Emit(c)] == if MaximalClique(g, c) then StartsIn(post, c) else 0 {
      assert multiset(out + sub) == multiset(out) + multiset(sub);
      StartCandidates(g, s, c);
      if s !in g && MaximalClique(g, c) {
        assert s !in c;
      }
    }
  }

  /**
    The driver (mapper.py lines 48-54): every start vertex that is a vertex
    of the graph is searched from `{s}` with all its neighbours as
    candidates and nothing excluded; other start lines produce nothing.
    On a simple graph every maximal clique is reported once for each start
    vertex in it, and nothing else is reported.
  */
  method MapStarts(g: Graph, starts: seq<Vertex>) returns (out: seq<CliqueRecord>)
    ensures RecordsFrom(g, starts, out)
    ensures Simple(g) ==> ReportsPerStart(g, starts, out)
    ensures (forall i :: 0 <= i < |starts| ==> starts[i] !in g) ==> out == []
  {
    out := [];
    for k := 0 to |starts|
      invariant RecordsFrom(g, starts[..k], out)
      invariant (forall i :: 0 <= i < k ==> starts[i] !in g) ==> out == []
      invariant Simple(g) ==> ReportsPerStart(g, starts[..k], out)
    {
      var s := starts[k];
      var sub := [];
      if s in g {
        if Simple(g) {
          InitialFrame(g, s);
        }
        sub := BronKerbosch(g, {s}, N(g, s), {});
      }
      DriverRecordsStep(g, starts, k, out, sub);
      if Simple(g) {
        DriverCountStep(g, starts, k, out, sub);
      }
      out := out + sub;
    }
    assert starts[..|starts|] == starts;
  }
}
