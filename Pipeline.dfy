/** `TriangleOutputer.run` (TriangleOutputer.java:152-197): the first job turns the
    edge list into edge markers and candidate pairs, its output is written as text
    and read back by the second job, which writes one line per triangle. */
module Pipeline {
  import opened Outcomes
  import opened Decimal
  import opened Tokenizer
  import opened Keys
  import opened Sorting
  import opened Shuffle
  import opened EdgeParsing
  import opened CrossProduct
  import opened IntermediateParsing
  import opened TriangleOutput
  import opened Jobs

  /** Both jobs over the input lines: the output lines, or the failure that
      stops a job (the second job runs only when the first succeeds). */
  function Run(lines: seq<string>): Result<seq<string>>
  {
    match MapEdgeLines(lines)
    case Err(f) => Err(f)
    case Ok(es) =>
      match MapIntermediateLines(RenderAll(Stage1(es)))
      case Err(f) => Err(f)
      case Ok(rs) => Ok(Stage2(rs))
  }

  /** `p < q < r` are pairwise joined by edges of `es`. */
  predicate IsTriangle(es: seq<Pair<int, int>>, p: int, q: int, r: int)
  {
    p < q < r && Pair(p, q) in es && Pair(p, r) in es && Pair(q, r) in es
  }

  /** Every record of the first job is one the second job reads back intact:
      whatever edges the first mapper kept, each key is a single token and each
      value is a `long`. */
  lemma Stage1Readable(es: seq<Pair<int, int>>)
    requires forall i :: 0 <= i < |es| ==> IsCanonical(es[i])
    ensures forall i :: 0 <= i < |Stage1(es)| ==> IsWord(Stage1(es)[i].key) && IsLong(Stage1(es)[i].value)
  {
    var s1 := Stage1(es);
    forall i | 0 <= i < |s1| ensures IsWord(s1[i].key) && IsLong(s1[i].value) {
      var x := s1[i];
      var a, l := Stage1Group(es, x);
      assert IsCanonical(es[l]);
      var vs := ValuesFor(es, a);
      var ms := Markers(a, vs);
      if x in ms {
        var m :| 0 <= m < |ms| && ms[m] == x;
        EdgeKeyIsWord(a, vs[m]);
      } else {
        var s := SortSeq(vs);
        CandidateFrom(s, Tagged(a), x);
        var u, w :| 0 <= u < w < |s| && x == Tagged(a)(s[u], s[w]);
        EdgeKeyIsWord(s[u], s[w]);
      }
    }
  }

  /** On any input, the run fails exactly when the first job's map phase fails:
      the second job reads the first job's text back and never throws. */
  lemma RunFailsOnlyInFirstJob(lines: seq<string>)
    ensures Run(lines).Ok? <==> MapEdgeLines(lines).Ok?
    ensures MapEdgeLines(lines).Ok? ==>
              Run(lines) == Ok(Stage2(Stage1(MapEdgeLines(lines).value)))
  {
    if MapEdgeLines(lines).Ok? {
      var es := MapEdgeLines(lines).value;
      Stage1Readable(es);
      MapRenderedAll(Stage1(es));
    }
  }

  /** A candidate `(q, r)` tagged with `p`, both of `p`'s edges, and the edge
      `(q, r)` make a triangle whose line is the candidate's line. */
  lemma TriangleOfRecords(es: seq<Pair<int, int>>, t: string, k: string, p: int, i: nat, j: nat, l: nat)
    requires SimpleGraph(es)
    requires i < |es| && j < |es| && l < |es|
    requires es[i].key == p && es[j].key == p && es[i].value < es[j].value
    requires k == EdgeKey(es[i].value, es[j].value) && k == EdgeKey(es[l].key, es[l].value)
    requires t == Joined(k, p)
    ensures IsTriangle(es, p, es[i].value, es[j].value)
    ensures t == TriangleText(p, es[i].value, es[j].value)
  {
    EdgeKeyInjective(es[i].value, es[j].value, es[l].key, es[l].value);
    assert IsCanonical(es[i]);
    assert es[i] == Pair(p, es[i].value) && es[j] == Pair(p, es[j].value);
    assert es[l] == Pair(es[i].value, es[j].value);
  }

  /** A line the second job writes is the triangle `"q,r,p"` of a triangle `p < q < r`. */
  lemma OutputIsTriangle(es: seq<Pair<int, int>>, t: string)
    requires SimpleGraph(es)
    requires t in Stage2(Stage1(es))
    ensures exists p, q, r :: IsTriangle(es, p, q, r) && t == TriangleText(p, q, r)
  {
    var s1 := Stage1(es);
    Stage2From(s1, t);
    var m :| 0 <= m < |s1| && s1[m].value != EdgeMarker
           && Pair(s1[m].key, EdgeMarker) in s1 && t == Joined(s1[m].key, s1[m].value);
    var k, p := s1[m].key, s1[m].value;
    Stage1Origin(es, s1[m]);
    var i, j :| 0 <= i < |es| && 0 <= j < |es| && es[i].key == p && es[j].key == p
             && es[i].value < es[j].value && k == EdgeKey(es[i].value, es[j].value);
    Stage1Origin(es, Pair(k, EdgeMarker));
    var l :| 0 <= l < |es| && k == EdgeKey(es[l].key, es[l].value);
    TriangleOfRecords(es, t, k, p, i, j, l);
  }

  /** Each triangle's line is written exactly once. */
  lemma TriangleWrittenOnce(es: seq<Pair<int, int>>, p: int, q: int, r: int)
    requires SimpleGraph(es)
    requires IsTriangle(es, p, q, r)
    ensures multiset(Stage2(Stage1(es)))[TriangleText(p, q, r)] == 1
  {
    var l :| 0 <= l < |es| && es[l] == Pair(q, r);
    var i :| 0 <= i < |es| && es[i] == Pair(p, q);
    assert 0 <= es[i].key;
    MarkerPresent(es, l);
    Stage1CandidateCount(es, p, q, r);
    Stage2Count(Stage1(es), EdgeKey(q, r), p);
  }

  /** The whole pipeline on an edge list without duplicate records and with
      non-negative vertices succeeds and writes every triangle `p < q < r` exactly
      once, as `"q,r,p"`, and writes nothing else. */
  lemma RunWritesTriangles(lines: seq<string>, es: seq<Pair<int, int>>)
    requires MapEdgeLines(lines) == Ok(es)
    requires Distinct(es)
    requires forall i :: 0 <= i < |es| ==> 0 <= es[i].key
    ensures Run(lines).Ok?
    ensures forall t :: t in Run(lines).value ==>
              exists p, q, r :: IsTriangle(es, p, q, r) && t == TriangleText(p, q, r)
    ensures forall p, q, r :: IsTriangle(es, p, q, r) ==>
              multiset(Run(lines).value)[TriangleText(p, q, r)] == 1
  {
    assert SimpleGraph(es);
    Stage1Readable(es);
    MapRenderedAll(Stage1(es));
    forall t | t in Run(lines).value
      ensures exists p, q, r :: IsTriangle(es, p, q, r) && t == TriangleText(p, q, r)
    {
      OutputIsTriangle(es, t);
    }
    forall p, q, r | IsTriangle(es, p, q, r)
      ensures multiset(Run(lines).value)[TriangleText(p, q, r)] == 1
    {
      TriangleWrittenOnce(es, p, q, r);
    }
  }

  /** The driver: the map phase of each job, then its reduce phase, the second
      job running only when the first succeeds. */
  method RunJob(lines: seq<string>) returns (result: Result<seq<string>>)
    ensures result == Run(lines)
  {
    var edges := MapEdgeLines(lines);
    if edges.Err? {
      return Err(edges.failure);
    }
    var written := ReduceCrossProduct(edges.value);
    var records := MapIntermediateLines(RenderAll(written));
    if records.Err? {
      return Err(records.failure);
    }
    var triangles := ReduceTriangles(records.value);
    result := Ok(triangles);
  }

  /** The first reduce phase as the framework runs it: the shuffle's groups,
      handed one by one to the same reducer object. */
  method ReduceCrossProduct(es: seq<Pair<int, int>>) returns (written: seq<Pair<string, int>>)
    ensures written == Stage1(es)
  {
    var reducer := new CrossProductReducer();
    written := reducer.ReduceAll(GroupByKey(es));
  }

  /** The second reduce phase, with one `OutputTriangleReducer` for all groups. */
  method ReduceTriangles(rs: seq<Pair<string, int>>) returns (triangles: seq<string>)
    ensures triangles == Stage2(rs)
  {
    var reducer := new OutputTriangleReducer();
    triangles := reducer.ReduceAll(GroupByKey(rs));
  }
}
