/** `CrossProductReducer` (TriangleOutputer.java:46-86): for one vertex and all its
    higher neighbours it writes an "edge exists" record for every neighbour, then
    sorts the neighbours in its reusable buffer and writes every ordered pair of
    sorted positions as a candidate closing pair, tagged with the vertex. */
module CrossProduct {
  import opened Keys
  import opened Shuffle
  import opened Sorting
  import opened Growable

  /** `(byte)-1` widened to a `long`: the value of an "edge exists" record. */
  const EdgeMarker: int := -1

  /** The "edge exists" records of `key` and its neighbours `vs`, in input order. */
  function Markers(key: int, vs: seq<int>): seq<Pair<string, int>>
  {
    seq(|vs|, i requires 0 <= i < |vs| => Pair(EdgeKey(key, vs[i]), EdgeMarker))
  }

  /** The candidate record of the pair `(a, b)` of the vertex `key`: the key
      `"a,b"` with the vertex as value. */
  function Tagged(key: int): (int, int) -> Pair<string, int>
  {
    (a: int, b: int) => Pair(EdgeKey(a, b), key)
  }

  /** The candidates of one row: `x` paired with each of `ys`, each made into a
      record by `f`. The positional lemmas below hold for any `f`. */
  function Row<T>(x: int, ys: seq<int>, f: (int, int) -> T): seq<T>
  {
    seq(|ys|, k requires 0 <= k < |ys| => f(x, ys[k]))
  }

  /** The candidates for the sorted neighbours `s`: the pair of positions
      `(i, j)` with `i < j`, row by row. */
  function Candidates<T>(s: seq<int>, f: (int, int) -> T): seq<T>
  {
    if s == [] then [] else Row(s[0], s[1..], f) + Candidates(s[1..], f)
  }

  /** Everything one `reduce(key, values)` call writes. */
  function CrossProduct(key: int, values: seq<int>): seq<Pair<string, int>>
  {
    Markers(key, values) + Candidates(SortSeq(values), Tagged(key))
  }

  /** One `reduce` call on a group of the shuffle. */
  function CrossProductGroup(g: Group<int, int>): seq<Pair<string, int>>
  {
    CrossProduct(g.key, g.values)
  }

  /** Different pairs give different records. */
  ghost predicate Injective<T>(f: (int, int) -> T)
  {
    forall a, b, c, d :: f(a, b) == f(c, d) ==> a == c && b == d
  }

  /** Two candidate records of one vertex are equal only for equal pairs. */
  lemma TaggedInjective(key: int)
    ensures Injective(Tagged(key))
  {
    forall a, b, c, d | Tagged(key)(a, b) == Tagged(key)(c, d) ensures a == c && b == d {
      EdgeKeyInjective(a, b, c, d);
    }
  }

  /** Where the candidate of positions `(i, j)` sits among `n` sorted values. */
  function PairIndex(n: nat, i: nat, j: nat): nat
    requires i < j < n
  {
    if i == 0 then j - 1 else (n - 1) + PairIndex(n - 1, i - 1, j - 1)
  }

  /** `n` neighbours give `n * (n - 1) / 2` candidates. */
  lemma {:induction false} CandidateCount<T>(s: seq<int>, f: (int, int) -> T)
    ensures |Candidates(s, f)| == |s| * (|s| - 1) / 2
  {
    if s != [] {
      CandidateCount(s[1..], f);
      var m := |s| - 1;
      assert m * (m - 1) + 2 * m == (m + 1) * m;
    }
  }

  /** The candidate at `PairIndex(|s|, i, j)` is the one of the pair `(s[i], s[j])`. */
  lemma {:induction false} CandidateAt<T>(s: seq<int>, f: (int, int) -> T, i: nat, j: nat)
    requires i < j < |s|
    ensures PairIndex(|s|, i, j) < |Candidates(s, f)|
    ensures Candidates(s, f)[PairIndex(|s|, i, j)] == f(s[i], s[j])
  {
    var rest := s[1..];
    var row := Row(s[0], rest, f);
    var tail := Candidates(rest, f);
    var cs := Candidates(s, f);
    assert cs == row + tail;
    if i == 0 {
      assert rest[j - 1] == s[j];
      assert cs[j - 1] == row[j - 1];
    } else {
      var k := PairIndex(|rest|, i - 1, j - 1);
      CandidateAt(rest, f, i - 1, j - 1);
      assert rest[i - 1] == s[i] && rest[j - 1] == s[j];
      assert PairIndex(|s|, i, j) == |row| + k;
      assert cs[|row| + k] == tail[k];
    }
  }

  /** Candidates come out in lexicographic order of their positions. */
  lemma {:induction false} PairIndexOrdered(n: nat, i: nat, j: nat, i': nat, j': nat)
    requires i < j < n && i' < j' < n
    requires i < i' || (i == i' && j < j')
    ensures PairIndex(n, i, j) < PairIndex(n, i', j')
  {
    if i > 0 {
      PairIndexOrdered(n - 1, i - 1, j - 1, i' - 1, j' - 1);
    } else if i' > 0 {
      assert PairIndex(n - 1, i' - 1, j' - 1) >= 0;
    }
  }

  /** Every candidate is the one of two sorted positions `i < j`. */
  lemma {:induction false} CandidateFrom<T>(s: seq<int>, f: (int, int) -> T, c: T)
    requires c in Candidates(s, f)
    ensures exists i, j :: 0 <= i < j < |s| && c == f(s[i], s[j])
  {
    var row := Row(s[0], s[1..], f);
    if c in row {
      var k :| 0 <= k < |row| && row[k] == c;
      assert c == f(s[0], s[k + 1]);
    } else {
      CandidateFrom(s[1..], f, c);
      var i, j :| 0 <= i < j < |s[1..]| && c == f(s[1..][i], s[1..][j]);
      assert c == f(s[i + 1], s[j + 1]);
    }
  }

  /** A row of distinct partners holds the candidate of `(q, r)` once if it
      starts at `q` and `r` is a partner, and never otherwise. */
  lemma {:induction false} RowCount<T>(x: int, ys: seq<int>, f: (int, int) -> T, q: int, r: int)
    requires Distinct(ys) && Injective(f)
    ensures multiset(Row(x, ys, f))[f(q, r)] == if x == q && r in ys then 1 else 0
  {
    if ys != [] {
      var init, last := ys[..|ys| - 1], ys[|ys| - 1];
      assert ys == init + [last];
      RowSnoc(x, init, last, f);
      RowCount(x, init, f, q, r);
    }
  }

  /** Over strictly ascending neighbours each pair `q < r` of neighbours is a
      candidate exactly once, and no other pair is. */
  lemma {:induction false} CandidatesCount<T>(s: seq<int>, f: (int, int) -> T, q: int, r: int)
    requires StrictlySorted(s) && Injective(f)
    ensures multiset(Candidates(s, f))[f(q, r)] == if q in s && r in s && q < r then 1 else 0
  {
    if s != [] {
      var rest := s[1..];
      assert forall k :: 0 <= k < |rest| ==> rest[k] == s[k + 1];
      RowCount(s[0], rest, f, q, r);
      CandidatesCount(rest, f, q, r);
      assert multiset(Candidates(s, f))[f(q, r)]
          == multiset(Row(s[0], rest, f))[f(q, r)] + multiset(Candidates(rest, f))[f(q, r)];
      PairsOfHead(s, q, r);
    }
  }

  /** A pair of members `q < r` of a strictly ascending sequence either starts at
      its head or lies wholly in its tail. */
  lemma PairsOfHead(s: seq<int>, q: int, r: int)
    requires StrictlySorted(s) && s != []
    ensures (if q in s && r in s && q < r then 1 else 0)
         == (if s[0] == q && r in s[1..] then 1 else 0) + (if q in s[1..] && r in s[1..] && q < r then 1 else 0)
  {
    assert s == [s[0]] + s[1..];
    assert forall k :: 0 <= k < |s[1..]| ==> s[1..][k] == s[k + 1];
    assert forall k :: 0 <= k < |s[1..]| ==> s[0] < s[1..][k];
  }

  lemma SortedLength(values: seq<int>)
    ensures |SortSeq(values)| == |values|
  {
    assert |SortSeq(values)| == |multiset(SortSeq(values))| == |multiset(values)|;
  }

  /** One `reduce` call writes one "edge exists" record per value and
      `n * (n - 1) / 2` candidates. */
  lemma CrossProductLength(key: int, values: seq<int>)
    ensures |CrossProduct(key, values)| == |values| + |values| * (|values| - 1) / 2
  {
    SortedLength(values);
    CandidateCount(SortSeq(values), Tagged(key));
  }

  /** The "edge exists" records come first, one per value, in input order. */
  lemma CrossProductMarkersFirst(key: int, values: seq<int>, i: nat)
    requires i < |values|
    ensures CrossProduct(key, values)[i] == Pair(EdgeKey(key, values[i]), EdgeMarker)
  {
  }

  /** Every record after the "edge exists" records is a candidate tagged with `key`. */
  lemma CrossProductTagged(key: int, values: seq<int>, i: nat)
    requires |values| <= i < |CrossProduct(key, values)|
    ensures CrossProduct(key, values)[i].value == key
  {
    var r := CrossProduct(key, values);
    assert r[i] in Candidates(SortSeq(values), Tagged(key));
    CandidateFrom(SortSeq(values), Tagged(key), r[i]);
  }

  /** The candidate of sorted positions `i < j` sits at `n + PairIndex(n, i, j)` and
      names its smaller endpoint first. */
  lemma CrossProductPairAt(key: int, values: seq<int>, i: nat, j: nat)
    requires i < j < |values|
    ensures |SortSeq(values)| == |values|
    ensures |values| + PairIndex(|values|, i, j) < |CrossProduct(key, values)|
    ensures CrossProduct(key, values)[|values| + PairIndex(|values|, i, j)]
            == Pair(EdgeKey(SortSeq(values)[i], SortSeq(values)[j]), key)
    ensures SortSeq(values)[i] <= SortSeq(values)[j]
  {
    SortedLength(values);
    PairAfter(Markers(key, values), SortSeq(values), Tagged(key), i, j);
  }

  /** After a prefix, the candidate of positions `(i, j)` sits `PairIndex` places in. */
  lemma PairAfter<T>(ms: seq<T>, s: seq<int>, f: (int, int) -> T, i: nat, j: nat)
    requires i < j < |s|
    ensures |ms| + PairIndex(|s|, i, j) < |ms + Candidates(s, f)|
    ensures (ms + Candidates(s, f))[|ms| + PairIndex(|s|, i, j)] == f(s[i], s[j])
  {
    CandidateAt(s, f, i, j);
  }

  /** Appending a value appends its "edge exists" record. */
  lemma MarkersSnoc(key: int, vs: seq<int>, x: int)
    ensures Markers(key, vs + [x]) == Markers(key, vs) + [Pair(EdgeKey(key, x), EdgeMarker)]
  {
  }

  /** Appending a partner appends its candidate to the row. */
  lemma RowSnoc<T>(x: int, ys: seq<int>, y: int, f: (int, int) -> T)
    ensures Row(x, ys + [y], f) == Row(x, ys, f) + [f(x, y)]
  {
  }

  lemma SliceSnoc<T>(s: seq<T>, a: nat, b: nat)
    requires a <= b < |s|
    ensures s[a..b + 1] == s[a..b] + [s[b]]
  {
  }

  /** The candidates of a suffix are its first row followed by the candidates of the rest. */
  lemma CandidatesSuffix<T>(s: seq<int>, f: (int, int) -> T, i: nat)
    requires i < |s|
    ensures Candidates(s[i..], f) == Row(s[i], s[i + 1..], f) + Candidates(s[i + 1..], f)
  {
    assert s[i..][1..] == s[i + 1..];
  }

  /** The reducer object: the buffer `edges` and its fill count `size` outlive each
      call, so the capacity a call leaves behind is where the next call starts. */
  class CrossProductReducer {
    var edges: array<int>
    var size: nat

    /** The buffer holds `size` values and its capacity is 4096 doubled zero or more times. */
    ghost predicate Valid()
      reads this
    {
      size <= edges.Length && Doubles(InitialCapacity, edges.Length)
    }

    constructor ()
      ensures Valid() && fresh(edges)
      ensures edges.Length == InitialCapacity && size == 0
    {
      edges := new int[InitialCapacity](_ => 0);
      size := 0;
    }

    /** `reduce(key, values, context)`: returns what it writes to the context. */
    method Reduce(key: int, values: seq<int>) returns (out: seq<Pair<string, int>>)
      requires Valid()
      modifies this, edges
      ensures Valid()
      ensures out == CrossProduct(key, values)
      ensures size == |values| && edges[..size] == SortSeq(values)
      ensures edges.Length == GrownCapacity(old(edges.Length), |values|)
      ensures edges == old(edges) || fresh(edges)
    {
      var markers := Fill(key, values);
      SortPrefix(edges, size);
      var candidates := EmitCandidates(key);
      out := markers + candidates;
    }

    /** One `reduce` call per group, in order, on this object: the buffer one call
        leaves behind is the one the next call starts from. */
    method ReduceAll(groups: seq<Group<int, int>>) returns (written: seq<Pair<string, int>>)
      requires Valid()
      modifies this, edges
      ensures Valid()
      ensures written == FlatMap(groups, CrossProductGroup)
    {
      written := [];
      for i := 0 to |groups|
        invariant Valid() && (edges == old(edges) || fresh(edges))
        invariant written == FlatMap(groups[..i], CrossProductGroup)
      {
        var out := Reduce(groups[i].key, groups[i].values);
        FlatMapPrefix(groups, i, CrossProductGroup);
        written := written + out;
      }
      assert groups[..|groups|] == groups;
    }

    /** The fill loop: reset `size`, then put each value into the buffer and write
        its "edge exists" record. */
    method Fill(key: int, values: seq<int>) returns (markers: seq<Pair<string, int>>)
      requires Valid()
      modifies this, edges
      ensures Valid()
      ensures size == |values| && edges[..size] == values
      ensures edges.Length == GrownCapacity(old(edges.Length), |values|)
      ensures edges == old(edges) || fresh(edges)
      ensures markers == Markers(key, values)
    {
      ghost var capacity := edges.Length;
      DoublesGrows(InitialCapacity, capacity);
      size := 0;
      markers := [];
      while size < |values|
        invariant Valid() && size <= |values|
        invariant edges == old(edges) || fresh(edges)
        invariant edges.Length == GrownCapacity(capacity, size)
        invariant edges[..size] == values[..size]
        invariant markers == Markers(key, values[..size])
      {
        GrownCapacityStep(capacity, size);
        var edge := values[size];
        MarkersSnoc(key, values[..size], edge);
        SliceSnoc(values, 0, size);
        Append(edge);
        markers := markers + [Pair(EdgeKey(key, edge), EdgeMarker)];
      }
      assert values[..size] == values;
    }

    /** One step of the fill loop: double the buffer if it is full, then store `edge`
        in the next slot. */
    method Append(edge: int)
      requires Valid()
      modifies this, edges
      ensures Valid() && size == old(size) + 1
      ensures edges[..size] == old(edges[..size]) + [edge]
      ensures edges.Length == if old(size) == old(edges.Length) then 2 * old(edges.Length) else old(edges.Length)
      ensures edges == old(edges) || fresh(edges)
    {
      if edges.Length == size {
        DoublesGrows(InitialCapacity, edges.Length);
        DoublesAgain(InitialCapacity, edges.Length);
        edges := CopyOf(edges, 2 * edges.Length);
      }
      edges[size] := edge;
      size := size + 1;
    }

    /** The nested loops over sorted positions `i < j`. */
    method EmitCandidates(key: int) returns (candidates: seq<Pair<string, int>>)
      requires Valid()
      ensures candidates == Candidates(edges[..size], Tagged(key))
    {
      ghost var s := edges[..size];
      ghost var f := Tagged(key);
      candidates := [];
      var i := 0;
      while i < size
        invariant 0 <= i <= size
        invariant candidates + Candidates(s[i..], f) == Candidates(s, f)
      {
        CandidatesSuffix(s, f, i);
        var row := EmitRow(key, i);
        assert row == Row(s[i], s[i + 1..], f) by {
          assert s[i] == edges[i] && s[i + 1..] == edges[i + 1..size];
        }
        assert (candidates + row) + Candidates(s[i + 1..], f) == candidates + (row + Candidates(s[i + 1..], f));
        candidates := candidates + row;
        i := i + 1;
      }
      assert s[i..] == [];
    }

    /** The inner loop: position `i` paired with every later position. */
    method EmitRow(key: int, i: nat) returns (row: seq<Pair<string, int>>)
      requires Valid() && i < size
      ensures row == Row(edges[i], edges[i + 1..size], Tagged(key))
    {
      row := [];
      var j := i + 1;
      while j < size
        invariant i + 1 <= j <= size
        invariant row == Row(edges[i], edges[i + 1..j], Tagged(key))
      {
        RowSnoc(edges[i], edges[i + 1..j], edges[j], Tagged(key));
        assert edges[i + 1..j + 1] == edges[i + 1..j] + [edges[j]];
        row := row + [Pair(EdgeKey(edges[i], edges[j]), key)];
        j := j + 1;
      }
    }
  }
}
