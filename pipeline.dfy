/**
  How the stages fit together: the listing the sampler writes loads back in
  the mapper as the induced subgraph itself, and the reducer, fed the
  mapper's records, writes exactly the largest maximal cliques.
*/
module Pipeline {
  import opened Wrappers
  import opened Graphs
  import opened AdjacencyFile
  import opened Sampler
  import opened Mapper
  import opened Reducer

  // ---------------------------------------------------------------------------
  // Sampler to mapper
  // ---------------------------------------------------------------------------

  /** A listing line with a neighbour reads back as that vertex and those neighbours. */
  lemma ListingLineParses(v: Vertex, nbrs: set<Vertex>)
    requires nbrs != {}
    ensures ParseAdjLine(ListingLine(v, nbrs)) == Some((v, nbrs))
  {
    var line := ListingLine(v, nbrs);
    assert line[1] != [] by {
      assert |SortedSeq(nbrs)| == |nbrs|;
    }
    assert TrimLeading(line) == line;
    assert TrimTrailing(line) == line;
  }

  /** Each line of a listing declares its vertex with that vertex's neighbours. */
  lemma ListingDeclarations(adj: Graph, lines: seq<AdjLine>)
    requires Listing(adj, lines)
    requires forall v :: v in adj ==> adj[v] != {}
    ensures forall i :: 0 <= i < |lines| ==>
              Head(lines[i]) in adj && ParseAll(lines)[i] == Some((Head(lines[i]), adj[Head(lines[i])]))
  {
    forall i | 0 <= i < |lines|
      ensures Head(lines[i]) in adj && ParseAll(lines)[i] == Some((Head(lines[i]), adj[Head(lines[i])]))
    {
      ListingLineParses(Head(lines[i]), adj[Head(lines[i])]);
      ParseAllAt(lines, i);
    }
  }

  /**
    Declarations of distinct vertices in ascending order, each with its
    neighbours in `adj` and covering its keys, load to `adj`.
  */
  lemma AscendingDeclarationsLoad(lines: seq<AdjLine>, ds: seq<Declaration>, adj: Graph)
    requires |ds| == |lines|
    requires forall i :: 0 <= i < |lines| ==> Head(lines[i]) in adj && ds[i] == Some((Head(lines[i]), adj[Head(lines[i])]))
    requires forall i, j :: 0 <= i < j < |lines| ==> Head(lines[i]) < Head(lines[j])
    requires forall v :: v in adj ==> exists i :: 0 <= i < |lines| && Head(lines[i]) == v
    ensures LoadedPrefix(ds, |ds|, adj)
  {
    forall v | v in adj ensures exists i :: LastDeclaration(ds, |ds|, i, v) && ds[i].value.1 == adj[v] {
      var i :| 0 <= i < |lines| && Head(lines[i]) == v;
      forall j | i < j < |ds| ensures !Declares(ds[j], v) {
        assert Head(lines[i]) < Head(lines[j]);
      }
      assert LastDeclaration(ds, |ds|, i, v);
    }
  }

  /** Loading a listing of a graph without empty neighbour sets gives that graph back. */
  lemma ListingLoads(adj: Graph, lines: seq<AdjLine>)
    requires Listing(adj, lines)
    requires forall v :: v in adj ==> adj[v] != {}
    ensures Loaded(lines, adj)
  {
    ListingDeclarations(adj, lines);
    AscendingDeclarationsLoad(lines, ParseAll(lines), adj);
  }

  /**
    The mapper's graph is the sampled subgraph: whatever it loads from the
    sampler's listing equals the induced subgraph, which is undirected, and
    simple when no edge is a self-loop.
  */
  lemma SamplerFeedsMapper(edges: seq<Edge>, ns: set<Vertex>, adj: Graph, lines: seq<AdjLine>, g: Graph)
    requires Induced(edges, ns, adj) && Listing(adj, lines) && Loaded(lines, g)
    ensures g == adj && Symmetric(g)
    ensures (forall i :: 0 <= i < |edges| ==> edges[i].u != edges[i].v) ==> Simple(g)
  {
    ListingLoads(adj, lines);
    LoadedUnique(lines, g, adj);
    InducedSymmetric(edges, ns, adj);
    if forall i :: 0 <= i < |edges| ==> edges[i].u != edges[i].v {
      InducedSimple(edges, ns, adj);
    }
  }

  // ---------------------------------------------------------------------------
  // Mapper to reducer
  // ---------------------------------------------------------------------------

  /** The line the reducer reads for a printed record; the member list stands for its comma-joined text. */
  function AsLine(rec: CliqueRecord): (l: RecordLine<seq<Vertex>>)
    ensures Counts(l) && l.size == Some(rec.size)
  {
    Fields(Some(rec.size), rec.members)
  }

  function AsLines(out: seq<CliqueRecord>): (ls: seq<RecordLine<seq<Vertex>>>)
    ensures |ls| == |out| && forall i :: 0 <= i < |out| ==> ls[i] == AsLine(out[i])
  {
    if out == [] then [] else [AsLine(out[0])] + AsLines(out[1..])
  }

  /** Reading the records back keeps each record's multiplicity. */
  lemma {:induction false} AsLinesCount(out: seq<CliqueRecord>, rec: CliqueRecord)
    ensures multiset(AsLines(out))[AsLine(rec)] == multiset(out)[rec]
    decreases |out|
  {
    if out != [] {
      assert out == [out[0]] + out[1..];
      assert AsLines(out) == [AsLine(out[0])] + AsLines(out[1..]);
      AsLinesCount(out[1..], rec);
    }
  }

  /** The size of the largest maximal clique containing a start vertex, or 0 when there is none. */
  ghost predicate LargestThroughStarts(g: Graph, starts: seq<Vertex>, k: int)
  {
    && k >= 0
    && (forall c :: MaximalClique(g, c) && StartsIn(starts, c) > 0 ==> |c| <= k)
    && (k == 0 || exists c :: MaximalClique(g, c) && StartsIn(starts, c) > 0 && |c| == k)
  }

  /** Every record of the mapper is that of a maximal clique through a start vertex. */
  lemma RecordIsClique(g: Graph, starts: seq<Vertex>, out: seq<CliqueRecord>, i: int)
    requires Simple(g) && RecordsFrom(g, starts, out) && ReportsPerStart(g, starts, out)
    requires 0 <= i < |out|
    ensures out[i] == Emit(Members(out[i]))
    ensures MaximalClique(g, Members(out[i])) && StartsIn(starts, Members(out[i])) > 0
  {
    var c := Members(out[i]);
    assert out[i] == Emit(c);
    assert out[i] in multiset(out);
  }

  /** The reducer's maximum over the mapper's records is the largest maximal clique through a start. */
  lemma MaxSizeOfMapOutput(g: Graph, starts: seq<Vertex>, out: seq<CliqueRecord>)
    requires Simple(g) && RecordsFrom(g, starts, out) && ReportsPerStart(g, starts, out)
    ensures LargestThroughStarts(g, starts, MaxSize(AsLines(out)))
  {
    var lines := AsLines(out);
    var k := MaxSize(lines);
    forall c | MaximalClique(g, c) && StartsIn(starts, c) > 0 ensures |c| <= k {
      assert Emit(c) in multiset(out);
      var i :| 0 <= i < |out| && out[i] == Emit(c);
      assert lines[i] == AsLine(out[i]);
    }
    if k != 0 {
      var i :| 0 <= i < |lines| && Counts(lines[i]) && lines[i].size.value == k;
      RecordIsClique(g, starts, out, i);
      assert lines[i] == AsLine(out[i]);
    }
  }

  /**
    End to end: on a simple graph, the reducer over the mapper's records
    writes the record of each largest maximal clique through a start once
    per start vertex it contains, and no other record.
  */
  lemma ReportOfMapOutput(g: Graph, starts: seq<Vertex>, out: seq<CliqueRecord>, c: set<Vertex>)
    requires Simple(g) && RecordsFrom(g, starts, out) && ReportsPerStart(g, starts, out)
    ensures var lines := AsLines(out);
            multiset(Report(lines))[AsLine(Emit(c))]
            == if MaximalClique(g, c) && |c| == MaxSize(lines) && |c| > 0 then StartsIn(starts, c) else 0
  {
    var lines := AsLines(out);
    var k := MaxSize(lines);
    var l := AsLine(Emit(c));
    AsLinesCount(out, Emit(c));
    if k <= 0 {
      assert Report(lines) == [];
    } else if |c| == k {
      ReportCount(lines, Emit(c).members);
    } else {
      WrittenOnly(k, Tied(lines, k), l);
    }
  }

  /** Every record the reducer writes over the mapper's output is that of a largest maximal clique. */
  lemma ReportOnlyLargest(g: Graph, starts: seq<Vertex>, out: seq<CliqueRecord>, l: RecordLine<seq<Vertex>>)
    requires Simple(g) && RecordsFrom(g, starts, out) && ReportsPerStart(g, starts, out)
    requires l in Report(AsLines(out))
    ensures exists c :: l == AsLine(Emit(c)) && MaximalClique(g, c) && |c| == MaxSize(AsLines(out))
  {
    var lines := AsLines(out);
    var k := MaxSize(lines);
    assert l.Fields? && l.size == Some(k);
    assert k > 0;
    ReportCount(lines, l.members);
    assert l == Fields(Some(k), l.members);
    assert l in multiset(lines);
    var i :| 0 <= i < |lines| && lines[i] == l;
    RecordIsClique(g, starts, out, i);
    assert l == AsLine(Emit(Members(out[i])));
  }
}
