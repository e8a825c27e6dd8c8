/**
  The reduce stage: fold the stream of clique records into the largest size
  seen and the member lists of every record of that size, in arrival order,
  then write those records out when some clique was seen at all.
*/
module Reducer {
  import opened Wrappers

  /**
    One stripped input line of the reducer, as the fold sees it: a line with
    no tab, or the text before the first tab read as an integer (`None`
    when that text is not one) and the rest of the line, `members`.
  */
  datatype RecordLine<M> = NoTab | Fields(size: Option<int>, members: M)

  /** The lines the fold takes into account; the rest are skipped. */
  predicate Counts<M>(l: RecordLine<M>)
  {
    l.Fields? && l.size.Some?
  }

  /**
    The largest size among the counted lines, and 0 when there is none or
    all are smaller (the fold starts from 0).
  */
  function MaxSize<M>(lines: seq<RecordLine<M>>): (m: int)
    ensures m >= 0
    ensures forall i :: 0 <= i < |lines| && Counts(lines[i]) ==> lines[i].size.value <= m
    ensures m == 0 || exists i :: 0 <= i < |lines| && Counts(lines[i]) && lines[i].size.value == m
    decreases |lines|
  {
    if lines == [] then 0
    else
      var front, l := lines[..|lines| - 1], lines[|lines| - 1];
      var m0 := MaxSize(front);
      assert forall i :: 0 <= i < |front| ==> front[i] == lines[i];
      if Counts(l) && l.size.value > m0 then l.size.value else m0
  }

  /** The members of the counted lines of size `k`, in arrival order. */
  function Tied<M>(lines: seq<RecordLine<M>>, k: int): (r: seq<M>)
    ensures |r| <= |lines|
    decreases |lines|
  {
    if lines == [] then []
    else
      var l := lines[|lines| - 1];
      Tied(lines[..|lines| - 1], k) + (if Counts(l) && l.size.value == k then [l.members] else [])
  }

  lemma {:induction false} TiedEmptyAbove<M>(lines: seq<RecordLine<M>>, k: int)
    requires k > MaxSize(lines)
    ensures Tied(lines, k) == []
    decreases |lines|
  {
    if lines != [] {
      TiedEmptyAbove(lines[..|lines| - 1], k);
    }
  }

  /** `Tied` holds each member list exactly as often as a counted line of size `k` carries it. */
  lemma {:induction false} TiedCount<M>(lines: seq<RecordLine<M>>, k: int, m: M)
    ensures multiset(Tied(lines, k))[m] == multiset(lines)[Fields(Some(k), m)]
    decreases |lines|
  {
    if lines != [] {
      var front, l := lines[..|lines| - 1], lines[|lines| - 1];
      assert lines == front + [l];
      TiedCount(front, k, m);
    }
  }

  /**
    The fold of reducer.py lines 5-19: a larger size replaces the collected
    lists by the new one, an equal size appends to them, a smaller size (and
    a line without a tab or without an integer size) changes nothing.
  */
  method Reduce<M>(lines: seq<RecordLine<M>>) returns (maxSize: int, collected: seq<M>)
    ensures maxSize == MaxSize(lines)
    ensures collected == Tied(lines, maxSize)
  {
    maxSize, collected := 0, [];
    for k := 0 to |lines|
      invariant maxSize == MaxSize(lines[..k])
      invariant collected == Tied(lines[..k], maxSize)
    {
      var line := lines[k];
      assert lines[..k + 1][..k] == lines[..k];
      if line.NoTab? || line.size.None? {
        continue;
      }
      var size := line.size.value;
      if size > maxSize {
        TiedEmptyAbove(lines[..k], size);
        maxSize, collected := size, [line.members];
      } else if size == maxSize {
        collected := collected + [line.members];
      }
    }
    assert lines[..|lines|] == lines;
  }

  /** The records written for a maximum and its collected member lists: none unless the maximum is positive. */
  function Written<M>(maxSize: int, collected: seq<M>): (out: seq<RecordLine<M>>)
    ensures |out| == if maxSize > 0 then |collected| else 0
  {
    if maxSize > 0 then seq(|collected|, i requires 0 <= i < |collected| => Fields(Some(maxSize), collected[i]))
    else []
  }

  /** The emission of reducer.py lines 22-24: one record per collected list, when the maximum is positive. */
  method Output<M>(maxSize: int, collected: seq<M>) returns (out: seq<RecordLine<M>>)
    ensures maxSize <= 0 ==> out == []
    ensures maxSize > 0 ==> |out| == |collected| &&
                            forall i :: 0 <= i < |out| ==> out[i] == Fields(Some(maxSize), collected[i])
  {
    out := [];
    if maxSize > 0 {
      for i := 0 to |collected|
        invariant |out| == i
        invariant forall j :: 0 <= j < i ==> out[j] == Fields(Some(maxSize), collected[j])
      {
        out := out + [Fields(Some(maxSize), collected[i])];
      }
    }
  }

  /** What the whole reducer writes for its input lines. */
  function Report<M>(lines: seq<RecordLine<M>>): (out: seq<RecordLine<M>>)
    ensures forall i :: 0 <= i < |out| ==> out[i].Fields? && out[i].size == Some(MaxSize(lines))
  {
    Written(MaxSize(lines), Tied(lines, MaxSize(lines)))
  }

  /** The reducer script: the fold, then the emission. */
  method RunReducer<M>(lines: seq<RecordLine<M>>) returns (out: seq<RecordLine<M>>)
    ensures out == Report(lines)
  {
    var maxSize, collected := Reduce(lines);
    out := Output(maxSize, collected);
  }

  // ---------------------------------------------------------------------------
  // Properties of the reduction
  // ---------------------------------------------------------------------------

  /** The written records are exactly the counted lines of the maximum size, with multiplicity. */
  lemma ReportCount<M>(lines: seq<RecordLine<M>>, m: M)
    requires MaxSize(lines) > 0
    ensures multiset(Report(lines))[Fields(Some(MaxSize(lines)), m)] == multiset(lines)[Fields(Some(MaxSize(lines)), m)]
  {
    var k := MaxSize(lines);
    var cs := Tied(lines, k);
    TiedCount(lines, k, m);
    WrittenCount(k, cs, m);
  }

  lemma {:induction false} WrittenCount<M>(k: int, cs: seq<M>, m: M)
    requires k > 0
    ensures multiset(Written(k, cs))[Fields(Some(k), m)] == multiset(cs)[m]
    decreases |cs|
  {
    if cs != [] {
      var front := cs[..|cs| - 1];
      assert cs == front + [cs[|cs| - 1]];
      assert Written(k, cs) == Written(k, front) + [Fields(Some(k), cs[|cs| - 1])];
      WrittenCount(k, front, m);
    }
  }

  /** The maximum depends only on which lines arrive, not on their order or repetition. */
  lemma MaxSizeSameLines<M>(a: seq<RecordLine<M>>, b: seq<RecordLine<M>>)
    requires forall l :: l in a <==> l in b
    ensures MaxSize(a) == MaxSize(b)
  {
    var ma, mb := MaxSize(a), MaxSize(b);
    if ma != 0 {
      var i :| 0 <= i < |a| && Counts(a[i]) && a[i].size.value == ma;
      assert a[i] in b;
      var j :| 0 <= j < |b| && b[j] == a[i];
    }
    if mb != 0 {
      var j :| 0 <= j < |b| && Counts(b[j]) && b[j].size.value == mb;
      assert b[j] in a;
      var i :| 0 <= i < |a| && a[i] == b[j];
    }
  }

  /**
    Reordering the input stream changes neither the maximum nor which lists
    are written, only the order in which tied lists appear.
  */
  lemma ReportOrderInvariant<M>(a: seq<RecordLine<M>>, b: seq<RecordLine<M>>)
    requires multiset(a) == multiset(b)
    ensures MaxSize(a) == MaxSize(b)
    ensures multiset(Report(a)) == multiset(Report(b))
  {
    SameElements(a, b);
    MaxSizeSameLines(a, b);
    var k := MaxSize(a);
    TiedPermutation(a, b, k);
    WrittenPermutation(k, Tied(a, k), Tied(b, k));
  }

  lemma SameElements<M>(a: seq<RecordLine<M>>, b: seq<RecordLine<M>>)
    requires multiset(a) == multiset(b)
    ensures forall l :: l in a <==> l in b
  {
    forall l ensures l in a <==> l in b {
      assert l in a <==> l in multiset(a);
      assert l in b <==> l in multiset(b);
    }
  }

  /** Reordering the input reorders the tied lists of each size and no more. */
  lemma TiedPermutation<M>(a: seq<RecordLine<M>>, b: seq<RecordLine<M>>, k: int)
    requires multiset(a) == multiset(b)
    ensures forall m :: multiset(Tied(a, k))[m] == multiset(Tied(b, k))[m]
  {
    forall m ensures multiset(Tied(a, k))[m] == multiset(Tied(b, k))[m] {
      TiedCount(a, k, m);
      TiedCount(b, k, m);
    }
  }

  lemma WrittenPermutation<M>(k: int, cs: seq<M>, ds: seq<M>)
    requires forall m :: multiset(cs)[m] == multiset(ds)[m]
    ensures multiset(Written(k, cs)) == multiset(Written(k, ds))
  {
    if k > 0 {
      forall l ensures multiset(Written(k, cs))[l] == multiset(Written(k, ds))[l] {
        if l.Fields? && l.size == Some(k) {
          WrittenCount(k, cs, l.members);
          WrittenCount(k, ds, l.members);
        } else {
          WrittenOnly(k, cs, l);
          WrittenOnly(k, ds, l);
        }
      }
    }
  }

  /** Every written record carries the maximum. */
  lemma WrittenOnly<M>(k: int, cs: seq<M>, l: RecordLine<M>)
    requires !(l.Fields? && l.size == Some(k))
    ensures multiset(Written(k, cs))[l] == 0
  {
    var w := Written(k, cs);
    assert forall i :: 0 <= i < |w| ==> w[i] != l;
    assert l !in w;
  }

  /** Merging two streams: the maximum of the concatenation is the larger of the two maxima. */
  lemma {:induction false} MaxSizeAppend<M>(a: seq<RecordLine<M>>, b: seq<RecordLine<M>>)
    ensures MaxSize(a + b) == if MaxSize(a) < MaxSize(b) then MaxSize(b) else MaxSize(a)
    decreases |b|
  {
    if b != [] {
      var front := b[..|b| - 1];
      assert (a + b)[..|a + b| - 1] == a + front;
      assert (a + b)[|a + b| - 1] == b[|b| - 1];
      MaxSizeAppend(a, front);
    } else {
      assert a + b == a;
    }
  }

  /** The running maximum never decreases as more lines arrive. */
  lemma MaxSizeNeverDecreases<M>(a: seq<RecordLine<M>>, b: seq<RecordLine<M>>)
    ensures MaxSize(a) <= MaxSize(a + b)
  {
    MaxSizeAppend(a, b);
  }

  /** Merging two streams: the lists of a given size are those of the first stream, then those of the second. */
  lemma {:induction false} TiedAppend<M>(a: seq<RecordLine<M>>, b: seq<RecordLine<M>>, k: int)
    ensures Tied(a + b, k) == Tied(a, k) + Tied(b, k)
    decreases |b|
  {
    if b != [] {
      var front := b[..|b| - 1];
      assert (a + b)[..|a + b| - 1] == a + front;
      assert (a + b)[|a + b| - 1] == b[|b| - 1];
      TiedAppend(a, front, k);
    } else {
      assert a + b == a;
    }
  }

  /** Reducing the reducer's own output writes the same records again. */
  lemma ReportIdempotent<M>(lines: seq<RecordLine<M>>)
    ensures Report(Report(lines)) == Report(lines)
  {
    var k := MaxSize(lines);
    var cs := Tied(lines, k);
    var out := Report(lines);
    if k > 0 && cs != [] {
      assert out[0].size.value == k;
      WrittenTied(k, cs);
      assert MaxSize(out) == k;
    } else if k > 0 {
      assert out == [];
    } else {
      assert out == [];
    }
  }

  lemma {:induction false} WrittenTied<M>(k: int, cs: seq<M>)
    requires k > 0
    ensures Tied(Written(k, cs), k) == cs
    decreases |cs|
  {
    if cs != [] {
      var front := cs[..|cs| - 1];
      assert Written(k, cs)[..|cs| - 1] == Written(k, front);
      WrittenTied(k, front);
    }
  }
}
