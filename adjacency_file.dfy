/**
  The adjacency-list file written by the sampler and read by the mapper:
  one line per vertex, `<vertex>TAB<comma-separated neighbours>`.
  A line is represented by its fields as cut at TAB characters (line break
  excluded), each field by the ids it lists between commas, so that the
  empty field is `[]`.
*/
module AdjacencyFile {
  import opened Graphs

  type Field = seq<Vertex>

  type AdjLine = seq<Field>

  /** Drops the empty fields in front, as stripping leading tabs does. */
  function TrimLeading(line: AdjLine): (r: AdjLine)
    ensures |r| <= |line| && r == line[|line| - |r|..]
    ensures forall k :: 0 <= k < |line| - |r| ==> line[k] == []
    ensures r != [] ==> r[0] != []
  {
    if line != [] && line[0] == [] then TrimLeading(line[1..]) else line
  }

  /** Drops the empty fields at the end, as stripping trailing tabs does. */
  function TrimTrailing(line: AdjLine): (r: AdjLine)
    ensures |r| <= |line| && r == line[..|r|]
    ensures forall k :: |r| <= k < |line| ==> line[k] == []
    ensures r != [] ==> r[|r| - 1] != []
  {
    if line != [] && line[|line| - 1] == [] then TrimTrailing(line[..|line| - 1]) else line
  }

  /**
    `str.strip()` seen through the fields: the tabs it removes at both ends
    are exactly the leading and trailing empty fields.
  */
  function Strip(line: AdjLine): (r: AdjLine)
    ensures exists i, j :: StrippedAt(line, i, j) && r == line[i..j]
    ensures r == [] <==> forall k :: 0 <= k < |line| ==> line[k] == []
  {
    var t := TrimLeading(line);
    var r := TrimTrailing(t);
    assert r != [] ==> r[0] == t[0];
    assert r == [] ==> t == [];
    var i := |line| - |t|;
    assert StrippedAt(line, i, i + |r|) && r == line[i..i + |r|];
    r
  }

  /**
    `line[i..j]` is what stripping leaves: every field outside it is empty,
    and its own first and last fields are not.
  */
  predicate StrippedAt(line: AdjLine, i: int, j: int)
  {
    && 0 <= i <= j <= |line|
    && (forall k :: 0 <= k < i ==> line[k] == [])
    && (forall k :: j <= k < |line| ==> line[k] == [])
    && (i < j ==> line[i] != [] && line[j - 1] != [])
  }

  /** The vertex a line starts with (0 for a line with no first id). */
  function Head(line: AdjLine): Vertex
  {
    if line != [] && line[0] != [] then line[0][0] else 0
  }

  /** The line `write_adjlist` writes for `node`: the id, a TAB, the ascending neighbours. */
  function ListingLine(node: Vertex, nbrs: set<Vertex>): (line: AdjLine)
    ensures |line| == 2 && line[0] == [node] && Head(line) == node
    ensures Increasing(line[1]) && Elems(line[1]) == nbrs
  {
    [[node], SortedSeq(nbrs)]
  }
}
