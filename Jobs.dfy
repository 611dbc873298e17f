/** The two MapReduce jobs of `run` (TriangleOutputer.java:152-197), each as its map
    phase's records grouped by key and handed, group by group, to the reducer. */
module Jobs {
  import opened Keys
  import opened Sorting
  import opened Shuffle
  import opened EdgeParsing
  import opened CrossProduct
  import opened TriangleOutput

  /** The reduce phase of the first job over its edge records. */
  function Stage1(es: seq<Pair<int, int>>): seq<Pair<string, int>>
  {
    FlatMap(GroupByKey(es), CrossProductGroup)
  }

  /** The reduce phase of the second job over its records. */
  function Stage2(rs: seq<Pair<string, int>>): seq<string>
  {
    FlatMap(GroupByKey(rs), CloseGroup)
  }

  /** What one record of the second job contributes, seen on its own: its line,
      when it is not a marker and its key has a marker somewhere in `all`. */
  function CloseOne(x: Pair<string, int>, all: seq<Pair<string, int>>): seq<string>
  {
    if x.value != EdgeMarker && Pair(x.key, EdgeMarker) in all then [Joined(x.key, x.value)] else []
  }

  function Closer(all: seq<Pair<string, int>>): Pair<string, int> -> seq<string>
  {
    (x: Pair<string, int>) => CloseOne(x, all)
  }

  lemma UngroupSnoc(k: string, vs: seq<int>, v: int)
    ensures Ungroup(Group(k, vs + [v])) == Ungroup(Group(k, vs)) + [Pair(k, v)]
  {
  }

  lemma ClosingsAppend(key: string, a: seq<int>, b: seq<int>)
    ensures Closings(key, a + b) == Closings(key, a) + Closings(key, b)
  {
  }

  /** Record by record, a group's records give the group's reduce output. */
  lemma {:induction false} ClosingsOfRecords(k: string, vs: seq<int>, all: seq<Pair<string, int>>)
    ensures FlatMap(Ungroup(Group(k, vs)), Closer(all))
            == if Pair(k, EdgeMarker) in all then Closings(k, NonMarkers(vs)) else []
  {
    if vs == [] {
    } else {
      var init, last := vs[..|vs| - 1], vs[|vs| - 1];
      assert vs == init + [last];
      UngroupSnoc(k, init, last);
      FlatMapSnoc(Ungroup(Group(k, init)), Pair(k, last), Closer(all));
      ClosingsOfRecords(k, init, all);
      ClosingsStep(k, init, last, all);
    }
  }

  /** One more record of a group adds its own line to the group's output. */
  lemma ClosingsStep(k: string, init: seq<int>, last: int, all: seq<Pair<string, int>>)
    ensures (if Pair(k, EdgeMarker) in all then Closings(k, NonMarkers(init)) else []) + Closer(all)(Pair(k, last))
            == if Pair(k, EdgeMarker) in all then Closings(k, NonMarkers(init + [last])) else []
  {
    var tail := if last == EdgeMarker then [] else [last];
    assert (init + [last])[..|init|] == init;
    assert NonMarkers(init + [last]) == NonMarkers(init) + tail;
    ClosingsAppend(k, NonMarkers(init), tail);
  }

  /** The second job's output, counted with multiplicity, is what its records
      give one by one: the grouping only brings each key's marker to its pairs. */
  lemma Stage2PerRecord(rs: seq<Pair<string, int>>)
    ensures multiset(Stage2(rs)) == multiset(FlatMap(rs, Closer(rs)))
  {
    var gs := GroupByKey(rs);
    forall i | 0 <= i < |gs|
      ensures CloseGroup(gs[i]) == FlatMap(Ungroup(gs[i]), Closer(rs))
    {
      var g := gs[i];
      ClosingsOfRecords(g.key, g.values, rs);
      ValuesForMember(rs, g.key, EdgeMarker);
    }
    FlatMapCongruent(gs, CloseGroup, (g: Group<string, int>) => FlatMap(Ungroup(g), Closer(rs)));
    RegroupMultiset(rs, Closer(rs));
  }

  lemma {:induction false} CloserCount(xs: seq<Pair<string, int>>, all: seq<Pair<string, int>>, k: string, v: int)
    requires v != EdgeMarker
    ensures multiset(FlatMap(xs, Closer(all)))[Joined(k, v)]
            == if Pair(k, EdgeMarker) in all then multiset(xs)[Pair(k, v)] else 0
  {
    if xs != [] {
      var x := xs[0];
      assert xs == [x] + xs[1..];
      CloserCount(xs[1..], all, k, v);
      if Joined(x.key, x.value) == Joined(k, v) {
        JoinedInjective(x.key, x.value, k, v);
      }
    }
  }

  /** The second job writes the line `k,v` of a non-marker value `v` once for
      every record `(k, v)` it reads if `k` has a marker record, and never otherwise. */
  lemma Stage2Count(rs: seq<Pair<string, int>>, k: string, v: int)
    requires v != EdgeMarker
    ensures multiset(Stage2(rs))[Joined(k, v)]
            == if Pair(k, EdgeMarker) in rs then multiset(rs)[Pair(k, v)] else 0
  {
    Stage2PerRecord(rs);
    CloserCount(rs, rs, k, v);
  }

  /** Every line the second job writes is `k,v` for a record `(k, v)` whose
      value is not a marker and whose key has a marker record. */
  lemma Stage2From(rs: seq<Pair<string, int>>, t: string)
    requires t in Stage2(rs)
    ensures exists i :: 0 <= i < |rs| && rs[i].value != EdgeMarker
                     && Pair(rs[i].key, EdgeMarker) in rs && t == Joined(rs[i].key, rs[i].value)
  {
    Stage2PerRecord(rs);
    assert t in multiset(Stage2(rs));
    FlatMapMember(rs, Closer(rs), t);
  }

  /** The edge records the first job reads: canonical, without duplicates, and
      with non-negative vertex numbers (so no vertex is the marker value). */
  predicate SimpleGraph(es: seq<Pair<int, int>>)
  {
    Distinct(es) && forall i :: 0 <= i < |es| ==> IsCanonical(es[i]) && 0 <= es[i].key
  }

  /** The group of the first job that holds key `k`. */
  lemma GroupOf<K, V>(rs: seq<Pair<K, V>>, k: K) returns (j: nat)
    requires exists i :: 0 <= i < |rs| && rs[i].key == k
    ensures j < |GroupByKey(rs)| && GroupByKey(rs)[j] == Group(k, ValuesFor(rs, k))
  {
    var ks := KeysOf(rs);
    var i :| 0 <= i < |rs| && rs[i].key == k;
    assert k in ks;
    j :| 0 <= j < |ks| && ks[j] == k;
  }

  /** Every edge gets its "edge exists" record. */
  lemma MarkerPresent(es: seq<Pair<int, int>>, i: nat)
    requires i < |es|
    ensures Pair(EdgeKey(es[i].key, es[i].value), EdgeMarker) in Stage1(es)
  {
    var a, b := es[i].key, es[i].value;
    var j := GroupOf(es, a);
    var vs := ValuesFor(es, a);
    ValuesForMember(es, a, b);
    var m :| 0 <= m < |vs| && vs[m] == b;
    assert Markers(a, vs)[m] == Pair(EdgeKey(a, b), EdgeMarker);
    assert Pair(EdgeKey(a, b), EdgeMarker) in CrossProductGroup(GroupByKey(es)[j]);
    FlatMapContains(GroupByKey(es), CrossProductGroup, j, Pair(EdgeKey(a, b), EdgeMarker));
  }

  /** A vertex's "edge exists" records name its edges. */
  lemma MarkerOrigin(es: seq<Pair<int, int>>, a: int, x: Pair<string, int>)
    requires x in Markers(a, ValuesFor(es, a))
    ensures x.value == EdgeMarker
    ensures exists i :: 0 <= i < |es| && x.key == EdgeKey(es[i].key, es[i].value)
  {
    var vs := ValuesFor(es, a);
    var m :| 0 <= m < |vs| && Markers(a, vs)[m] == x;
    ValuesForMember(es, a, vs[m]);
    var i :| 0 <= i < |es| && es[i] == Pair(a, vs[m]);
    assert x.key == EdgeKey(es[i].key, es[i].value);
  }

  /** A sorted neighbour of `a` is the value of one of `a`'s edges. */
  lemma NeighbourEdge(es: seq<Pair<int, int>>, a: int, b: int) returns (i: nat)
    requires b in SortSeq(ValuesFor(es, a))
    ensures i < |es| && es[i] == Pair(a, b)
  {
    assert b in multiset(ValuesFor(es, a));
    ValuesForMember(es, a, b);
    i :| 0 <= i < |es| && es[i] == Pair(a, b);
  }

  /** A vertex's candidates pair two of its neighbours, lower one first. */
  lemma CandidateOrigin(es: seq<Pair<int, int>>, a: int, x: Pair<string, int>)
    requires Distinct(es)
    requires x in Candidates(SortSeq(ValuesFor(es, a)), Tagged(a))
    ensures x.value == a
    ensures exists i, j :: 0 <= i < |es| && 0 <= j < |es| && es[i].key == a && es[j].key == a
                        && es[i].value < es[j].value && x.key == EdgeKey(es[i].value, es[j].value)
  {
    var vs := ValuesFor(es, a);
    var s := SortSeq(vs);
    CandidateFrom(s, Tagged(a), x);
    var i, j :| 0 <= i < j < |s| && x == Tagged(a)(s[i], s[j]);
    ValuesForDistinct(es, a);
    SortDistinct(vs);
    var i' := NeighbourEdge(es, a, s[i]);
    var j' := NeighbourEdge(es, a, s[j]);
    assert es[i'].value < es[j'].value;
  }

  /** The group of the first job that wrote a record, and an edge of its vertex. */
  lemma Stage1Group(es: seq<Pair<int, int>>, x: Pair<string, int>) returns (a: int, l: nat)
    requires x in Stage1(es)
    ensures x in Markers(a, ValuesFor(es, a)) || x in Candidates(SortSeq(ValuesFor(es, a)), Tagged(a))
    ensures l < |es| && es[l].key == a
  {
    var gs := GroupByKey(es);
    FlatMapMember(gs, CrossProductGroup, x);
    var n :| 0 <= n < |gs| && x in CrossProductGroup(gs[n]);
    var g := gs[n];
    a := g.key;
    assert g == Group(a, ValuesFor(es, a));
    assert x in CrossProduct.CrossProduct(a, ValuesFor(es, a));
    var ks := KeysOf(es);
    assert a == ks[n];
    l :| 0 <= l < |es| && es[l].key == a;
  }

  /** Every record of the first job is either the marker of an edge or a candidate
      `(q, r)` tagged with a vertex `p` that has both `q < r` as neighbours. */
  lemma Stage1Origin(es: seq<Pair<int, int>>, x: Pair<string, int>)
    requires SimpleGraph(es)
    requires x in Stage1(es)
    ensures x.value == EdgeMarker ==>
              exists i :: 0 <= i < |es| && x.key == EdgeKey(es[i].key, es[i].value)
    ensures x.value != EdgeMarker ==>
              exists i, j :: 0 <= i < |es| && 0 <= j < |es| && es[i].key == x.value && es[j].key == x.value
                          && es[i].value < es[j].value && x.key == EdgeKey(es[i].value, es[j].value)
  {
    var a, l := Stage1Group(es, x);
    if x in Markers(a, ValuesFor(es, a)) {
      MarkerOrigin(es, a, x);
    } else {
      CandidateOrigin(es, a, x);
    }
  }

  /** Only the group of `p` writes records tagged with `p`. */
  lemma OnlyOwnGroup(es: seq<Pair<int, int>>, g: Group<int, int>, y: Pair<string, int>)
    requires y.value != EdgeMarker && y.value != g.key
    ensures y !in CrossProductGroup(g)
  {
    if y in Candidates(SortSeq(g.values), Tagged(g.key)) {
      CandidateFrom(SortSeq(g.values), Tagged(g.key), y);
    }
  }

  /** The group of `p` writes the candidate `(q, r)` once if both are neighbours. */
  lemma GroupCandidateCount(es: seq<Pair<int, int>>, p: int, q: int, r: int)
    requires Distinct(es)
    requires p != EdgeMarker && q < r
    ensures multiset(CrossProduct.CrossProduct(p, ValuesFor(es, p)))[Pair(EdgeKey(q, r), p)]
            == if Pair(p, q) in es && Pair(p, r) in es then 1 else 0
  {
    var vs := ValuesFor(es, p);
    var s := SortSeq(vs);
    var y := Pair(EdgeKey(q, r), p);
    assert y !in Markers(p, vs);
    ValuesForDistinct(es, p);
    SortDistinct(vs);
    TaggedInjective(p);
    CandidatesCount(s, Tagged(p), q, r);
    assert Tagged(p)(q, r) == y;
    assert q in s <==> q in multiset(vs);
    assert r in s <==> r in multiset(vs);
    ValuesForMember(es, p, q);
    ValuesForMember(es, p, r);
  }

  /** The first job writes the candidate `(q, r)` tagged with the vertex `p` once
      if `q` and `r` are both higher neighbours of `p`, and never otherwise. */
  lemma Stage1CandidateCount(es: seq<Pair<int, int>>, p: int, q: int, r: int)
    requires Distinct(es)
    requires p != EdgeMarker && q < r
    ensures multiset(Stage1(es))[Pair(EdgeKey(q, r), p)]
            == if Pair(p, q) in es && Pair(p, r) in es then 1 else 0
  {
    var y := Pair(EdgeKey(q, r), p);
    var gs := GroupByKey(es);
    if exists i :: 0 <= i < |es| && es[i].key == p {
      var j := GroupOf(es, p);
      assert forall n :: 0 <= n < |gs| && n != j ==> y !in CrossProductGroup(gs[n]) by {
        OtherGroupsSilent(es, y);
      }
      FlatMapCountOne(gs, CrossProductGroup, y, j);
      GroupCandidateCount(es, p, q, r);
    } else {
      assert forall n :: 0 <= n < |gs| ==> y !in CrossProductGroup(gs[n]) by {
        OtherGroupsSilent(es, y);
      }
      FlatMapAbsent(gs, CrossProductGroup, y);
      assert Pair(p, q) !in es;
    }
  }

  /** No group but the one of `y`'s tag writes `y`. */
  lemma OtherGroupsSilent(es: seq<Pair<int, int>>, y: Pair<string, int>)
    requires y.value != EdgeMarker
    ensures forall n :: 0 <= n < |GroupByKey(es)| && GroupByKey(es)[n].key != y.value
                        ==> y !in CrossProductGroup(GroupByKey(es)[n])
  {
    var gs := GroupByKey(es);
    forall n | 0 <= n < |gs| && gs[n].key != y.value
      ensures y !in CrossProductGroup(gs[n])
    {
      OnlyOwnGroup(es, gs[n], y);
    }
  }
}
