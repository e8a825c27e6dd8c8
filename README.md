# Distributed maximum clique finder, modelled in Dafny

The system finds the largest cliques of an undirected graph as a two-stage
Hadoop Streaming job, with a sampler that prepares its input:

- **Sampler** (`adj.py`) reads a whitespace-separated edge list. It picks a
  vertex set in one of three ways: the ids `0..n-1`, a random sample of n
  distinct endpoints, or the n vertices of highest degree. It builds the
  subgraph those vertices induce and writes it as an adjacency listing, one
  line `vertex TAB neighbour,neighbour,...` per vertex, in ascending order.
- **Mapper** (`mapper.py`) loads that listing into a neighbour map. For every
  start vertex read from its input, it runs the Bron–Kerbosch search with
  Tomita pivoting from `R = {start}`, `P = N(start)`, `X = {}`. It prints one
  record `size TAB ascending,members` for each maximal clique the search
  finds.
- **Reducer** (`reducer.py`) folds the records into the largest size seen
  and the member lists of that size, in arrival order. It writes those
  records when that size is positive.

The modules of the model follow that structure:

- `Graphs` holds graphs, cliques, maximal cliques and sorted sequences.
- `AdjacencyFile` holds the listing's line format.
- `Sampler`, `Mapper` and `Reducer` hold the three programs.
- `Pipeline` holds the lemmas that connect the stages.
- `Wrappers` holds `Option` and `Result`.

Loops of the source are methods with loop invariants, each proved against a
specification function or predicate:

- `ReadEdges`, `DistinctNodes`, `Degrees`, `BuildAdj` and `WriteAdjList`
  in the sampler;
- `LoadGraph`, the search and `MapStarts` in the mapper;
- `Reduce` and `Output` in the reducer.

The search is `BronKerbosch` together with `VisitNonNeighbours`, its loop
over the snapshot of `P \ N(u)`. It is proved to report each maximal clique
between `R` and `R ∪ P` exactly once, and nothing else, whenever the graph
is simple and the frame invariant holds. Its termination measure is `|P|`,
which the pivot's maximality makes decrease.

The code differs from the usual description in one place, and the model
follows the code. Python's `str.strip()` also removes tab characters, so the
line `v TAB` of a vertex without neighbours shrinks to `v`. It then has one
field and is skipped. So the `else set()` branch of `mapper.py:19` cannot
run, and every loaded vertex has at least one neighbour
(`Mapper.ParseAdjLine`, `Mapper.IsolatedVertexLineSkipped`). An
isolated start vertex is therefore not in the mapper's graph, and no record
is printed for it, not the record `1 TAB v`. The search itself does report
`{v}` for a vertex that a graph does map to an empty neighbour set (the leaf
case of `Mapper.BronKerbosch` and `Mapper.IsolatedVertexClique`).

## Model

| member | source | states |
|---|---|---|
| `AdjacencyFile.Strip` | mapper.py:11 | stripping a line leaves the slice of it between its empty leading and empty trailing fields, whose own first and last fields are non-empty; it leaves nothing exactly when every field is empty |
| `Mapper.ParseAdjLine` | mapper.py:11-19 | a line that declares a vertex gives it a non-empty neighbour set, because stripping has already removed an empty neighbour field |
| `Mapper.ParseAdjLineFields` | mapper.py:11-19 | for any line, with `line[i..j]` what stripping leaves: the line declares a vertex exactly when that slice has two fields and its first is one id; the declaration is that id with the set of ids in the second field; otherwise the line declares nothing |
| `Mapper.IsolatedVertexLineSkipped` | mapper.py:11-16 | the line `v TAB` declares nothing |
| `Mapper.LoadSkipping` | mapper.py:12-16 | a line that declares nothing leaves the loaded graph as it was |
| `Mapper.LoadDeclaring` | mapper.py:17-20 | a declaring line sets its vertex's entry to its neighbour set, replacing any earlier entry |
| `Mapper.LoadGraph` | mapper.py:9-20 | the loaded graph has every declared vertex as a key, mapped to the neighbours of the last line that declares it; no key has an empty neighbour set |
| `Mapper.LoadedUnique` | mapper.py:9-20 | the lines determine the loaded graph uniquely |
| `Mapper.Emit` | mapper.py:28-29 | a record carries the clique's size and its members in strictly ascending order, which are exactly the clique |
| `Mapper.EmitInjective` | mapper.py:28-29 | different cliques give different records |
| `Mapper.PivotExists` | mapper.py:34-36 | a non-empty candidate set `P ∪ X` has a vertex with the most neighbours in `P` |
| `Mapper.PivotShrinks` | mapper.py:36-43 | for a pivot `u` and any `v` in `P \ N(u)`, the recursive call's candidate set `P ∩ N(v)` is smaller than `P` (termination) |
| `Mapper.LeafCandidates` | mapper.py:27-32 | with `P` empty, `R` is the one clique to report when `X` is empty, and there is none otherwise |
| `Mapper.LeafCount` | mapper.py:27-32 | the leaf outputs (one record of `R`, or none) report exactly the leaf's cliques |
| `Mapper.FrameDescend` | mapper.py:42-43 | on a simple graph the call with `R ∪ {v}`, `P ∩ N(v)`, `X ∩ N(v)` again satisfies the frame invariant: `R` is a clique and `P`, `X` are disjoint and hold exactly its extensions |
| `Mapper.FrameMove` | mapper.py:44-45 | moving `v` from `P` to `X` keeps the frame invariant |
| `Mapper.PivotExtends` | mapper.py:36-37 | a clique in the frame that avoids `P \ N(u)` could still be extended by `u` |
| `Mapper.PivotCovers` | mapper.py:36-41 | every maximal clique the call answers for contains a vertex of `P \ N(u)` (Tomita's pivot rule loses nothing) |
| `Mapper.BranchSplit` | mapper.py:41-45 | the cliques through the vertices visited so far plus `v` split disjointly into those through earlier vertices and those the recursive call for `v` answers for |
| `Mapper.CountStep` | mapper.py:41-45 | appending the recursive call's records extends "each clique meeting the visited vertices exactly once" by `v` |
| `Mapper.CountFinish` | mapper.py:41-45 | once all of `P \ N(u)` is visited, every clique the call answers for has been reported exactly once |
| `Mapper.BronKerbosch` | mapper.py:25-45 | with `P`, `X` empty it prints `R`; with `P` empty and `X` not it prints nothing; every record lies between `R` and `R ∪ P`; on a simple graph, under the frame invariant, each maximal clique `C` with `R ⊆ C ⊆ R ∪ P` is printed exactly once and nothing else is |
| `Mapper.VisitNonNeighbours` | mapper.py:41-45 | the loop over the snapshot of `P \ N(u)` prints exactly once each maximal clique of the frame that meets `P \ N(u)`, and nothing else |
| `Mapper.IsolatedVertexClique` | mapper.py:27-29 | a vertex with no neighbours is a maximal clique of size 1, and the only maximal clique containing it |
| `Mapper.InitialFrame` | mapper.py:50-53 | on a simple graph the start frame `{s}`, `N(s)`, `{}` satisfies the frame invariant |
| `Mapper.StartCandidates` | mapper.py:50-54 | the cliques the start frame answers for are exactly the maximal cliques containing `s` |
| `Mapper.MapStarts` | mapper.py:48-54 | on any graph, every record is the record of its own member set, and that set contains a start vertex of the graph; on a simple graph each maximal clique is printed once per start it contains and non-maximal sets never are; with no start in the graph nothing is printed |
| `Reducer.MaxSize` | reducer.py:5-17 | the fold's maximum is at least 0 and at least every parsed size, and it is 0 or the size of some parsed line |
| `Reducer.TiedEmptyAbove` | reducer.py:15-19 | no member list is collected for a size above the maximum |
| `Reducer.TiedCount` | reducer.py:15-19 | the list collected for size `k` holds each member text as often as the input has a line of size `k` with that text |
| `Reducer.Reduce` | reducer.py:5-19 | the fold returns the largest size and the member lists of exactly that size, in arrival order; lines without a tab or with a non-integer size are skipped |
| `Reducer.Output` | reducer.py:22-24 | nothing is written unless the size is positive; otherwise one line `size TAB members` per collected list, in order |
| `Reducer.Report` | reducer.py:22-24 | every written line carries the maximum size |
| `Reducer.RunReducer` | reducer.py:5-24 | the reducer writes the report of its input |
| `Reducer.ReportCount` | reducer.py:15-24 | when the maximum is positive, each line of that size is written exactly as often as it occurs in the input |
| `Reducer.WrittenCount` | reducer.py:22-24 | each collected list is written as often as it was collected |
| `Reducer.WrittenOnly` | reducer.py:22-24 | no line of another size, and no line without one, is ever written |
| `Reducer.WrittenTied` | reducer.py:22-24 | re-reading the written lines collects the same lists in the same order |
| `Reducer.MaxSizeSameLines` | reducer.py:15-17 | the maximum depends only on which lines occur |
| `Reducer.TiedPermutation` | reducer.py:17-19 | reordering the input permutes each size's collected lists |
| `Reducer.WrittenPermutation` | reducer.py:22-24 | permuted collected lists are written as a permutation of the same lines |
| `Reducer.ReportOrderInvariant` | reducer.py:8-24 | reordering the input (as arrival order across mappers) leaves the maximum unchanged and permutes the output |
| `Reducer.MaxSizeAppend` | reducer.py:15-17 | the maximum of two concatenated streams is the larger of their maxima |
| `Reducer.MaxSizeNeverDecreases` | reducer.py:15-17 | more input never lowers the maximum |
| `Reducer.TiedAppend` | reducer.py:17-19 | the collected lists of two concatenated streams are those of the first followed by those of the second |
| `Reducer.ReportIdempotent` | reducer.py:8-24 | running the reducer over its own output gives that output again |
| `Sampler.LineEdge` | adj.py:11-17 | a line gives an edge exactly when its first two tokens are integers; it is skipped exactly when it is blank, a comment or shorter than two tokens; otherwise it is an error |
| `Sampler.AcceptedEdgesFrom` | adj.py:10-18 | an edge is read exactly when some line gives it |
| `Sampler.MaxEndpoint` | adj.py:8-20 | the maximum id is at least -1 and at least every endpoint, and it is -1 or an endpoint |
| `Sampler.ReadEdges` | adj.py:6-21 | reading succeeds exactly when no line has a non-integer endpoint; it then gives the accepted edges in order and their maximum endpoint; otherwise it names the first bad line |
| `Sampler.RangeNodes` | adj.py:53 | `range(n)` as a set holds exactly the ids `0 <= x < n`, so it has `max(n, 0)` elements |
| `Sampler.Endpoints` | adj.py:58-60 | a vertex is collected exactly when it is an endpoint of some edge |
| `Sampler.DistinctNodes` | adj.py:58-60 | the loop collects the endpoint set |
| `Sampler.SamplePopulation` | adj.py:58-63 | the program stops with the requested and available counts exactly when more vertices are requested than there are distinct endpoints; otherwise it gives the ascending list of all endpoints, at least `n` long |
| `Sampler.IncidencesPositive` | adj.py:68-70 | a vertex has a positive degree exactly when it is an endpoint |
| `Sampler.IncidencesAppend` | adj.py:68-70 | degrees over concatenated edge lists add up |
| `Sampler.Degrees` | adj.py:67-70 | the counter holds every endpoint's number of incidences, and its keys are exactly the endpoints |
| `Sampler.InducedStep` | adj.py:25-28 | adding both directions of an in-set edge, or nothing for another edge, keeps the map the induced subgraph of the edges read so far |
| `Sampler.BuildAdj` | adj.py:23-29 | `b` is a neighbour of `a` exactly when some edge joins `a` and `b` inside the vertex set, and no key has an empty neighbour set |
| `Sampler.InducedSymmetric` | adj.py:27-28 | the induced subgraph is undirected |
| `Sampler.InducedWithin` | adj.py:26 | the induced subgraph's vertices and neighbours all lie in the chosen set |
| `Sampler.InducedSimple` | adj.py:25-28 | without self-loops in the edge list the induced subgraph is simple |
| `Sampler.InducedUnique` | adj.py:23-29 | the edges and the set determine the induced subgraph uniquely |
| `AdjacencyFile.ListingLine` | adj.py:36 | the written line has two fields: the vertex alone, then the neighbours in strictly ascending order, exactly the given set |
| `Sampler.WriteAdjList` | adj.py:31-36 | the listing has one line per key, in strictly ascending vertex order; each line is the vertex followed by its neighbours in ascending order |
| `Pipeline.ListingLineParses` | adj.py:36 | the mapper reads a written line with a non-empty neighbour set back as that vertex and set |
| `Pipeline.ListingDeclarations` | adj.py:34-36 | each line of a listing declares its vertex with exactly its neighbours |
| `Pipeline.AscendingDeclarationsLoad` | mapper.py:9-20 | declarations of distinct vertices, each carrying its neighbour set and together covering every vertex, load to that graph |
| `Pipeline.ListingLoads` | adj.py:31-36 | loading the listing of a graph without empty neighbour sets gives that graph back |
| `Pipeline.SamplerFeedsMapper` | adj.py:23-36 | the mapper's graph loaded from the sampler's listing is the induced subgraph; it is undirected, and simple when no edge is a self-loop |
| `Pipeline.AsLinesCount` | mapper.py:29 | the reducer's lines keep each record's multiplicity |
| `Pipeline.RecordIsClique` | mapper.py:29 | on a simple graph, every mapper record is that of a maximal clique through a start vertex |
| `Pipeline.MaxSizeOfMapOutput` | reducer.py:15-17 | the reducer's maximum over the mapper's records is the size of the largest maximal clique through a start vertex, or 0 if there is none |
| `Pipeline.ReportOfMapOutput` | reducer.py:22-24 | the reducer writes the record of each largest maximal clique once per start vertex it contains, and no other line |
| `Pipeline.ReportOnlyLargest` | reducer.py:22-24 | every line the reducer writes is the record of a maximal clique of the largest size |

## Left out

- File and stream I/O (`open`, `sys.stdin`, `print`, the progress messages and sample lines of `adj.py:48-91`) are not modelled. Lines become sequences of values given as parameters, and the output is a returned sequence.
- The `IOError` exit in `mapper.py:21-23` is not modelled, because opening a file is I/O.
- Command-line parsing with `argparse` and the unknown-method exit (`adj.py:39-46`, `adj.py:74-75`) are not modelled. The method and `n` are the choice of which operation a caller invokes.
- Hadoop Streaming's distribution, sorting and shuffling are not modelled. `Reducer.ReportOrderInvariant` states that arrival order does not change the maximum and only permutes the output.
- `random.sample` (`adj.py:56`, `adj.py:64`) is randomness and is not modelled. `Sampler.SamplePopulation` returns the sorted population it samples from; the subset chosen is left to the caller.
- `Counter.most_common(n)` (`adj.py:71-72`) is not modelled: its order among equal counts is insertion order, which is not modelled. `Sampler.Degrees` gives the counts it ranks.
- The `except (ValueError, KeyError)` fallback in `mapper.py:38-40` is not modelled, because neither exception can occur. `P ∪ X` is non-empty there and `graph.get` has a default.
- Visiting order: `mapper.py:41` visits `P \ N(u)` in set-iteration order; `Mapper.VisitNonNeighbours` takes its vertices in an arbitrary order. So the model states which records are printed and how often (a multiset), not their order.
- Pivot tie-breaking: which of several equally good pivots `max` picks depends on set iteration order. The model picks any maximiser, so its contract holds for every tie-break.
- Vertex ids are integers. The mapper keys its graph by id text, so non-canonical text such as `07` and an empty id from `1,,2` are not represented.
- Mapper.ParseAdjLine: a vertex field holding a comma (`1,2 TAB 3`) declares the text key `1,2` in Python; a start line `1,2` would find it and then fail in `sorted(R, key=int)` (`mapper.py:28`). The model's vertices and starts are integer ids, so it treats such a line as declaring nothing, and that key and that crash are not represented.
- `str.strip()` is modelled only on tabs, as the removal of empty leading and trailing fields. Spaces and other whitespace around ids are not modelled.
- The edge-list tokens of `adj.py:14-17` are value categories: an `int()` literal, text starting with `#`, other text. `int()`'s own syntax is not modelled.
- The reducer's lines are given already split at the first tab (`Reducer.RecordLine`), with the member text left abstract. The comma-joined text of a mapper record is represented by its member sequence (`Pipeline.AsLine`).
- The reducer's integers are unbounded, as Python's are. The mapper's record sizes are set cardinalities.
