/** `OutputTriangleReducer` (TriangleOutputer.java:110-149): for one pair key
    `"q,r"` it collects every candidate third vertex; if an "edge exists" record is
    among the values, the pair is an edge and every candidate closes a triangle,
    written as `"q,r,p"`. */
module TriangleOutput {
  import opened Keys
  import opened Growable
  import opened Shuffle
  import opened CrossProduct

  /** The values other than "edge exists" records, in order: what the reducer
      stores in `vArray`. */
  function NonMarkers(vs: seq<int>): (ps: seq<int>)
    ensures EdgeMarker !in ps
    ensures |ps| <= |vs|
  {
    if vs == [] then
      []
    else
      var last := vs[|vs| - 1];
      NonMarkers(vs[..|vs| - 1]) + (if last == EdgeMarker then [] else [last])
  }

  /** Dropping the markers keeps every other value as often as it occurs. */
  lemma {:induction false} NonMarkersCount(vs: seq<int>, x: int)
    requires x != EdgeMarker
    ensures multiset(NonMarkers(vs))[x] == multiset(vs)[x]
  {
    if vs != [] {
      var init, last := vs[..|vs| - 1], vs[|vs| - 1];
      assert vs == init + [last];
      NonMarkersCount(init, x);
    }
  }

  /** Dropping markers from two pieces is dropping them from each piece. */
  lemma {:induction false} NonMarkersAppend(a: seq<int>, b: seq<int>)
    ensures NonMarkers(a + b) == NonMarkers(a) + NonMarkers(b)
  {
    if b == [] {
      assert a + b == a;
    } else {
      var init, last := b[..|b| - 1], b[|b| - 1];
      assert (a + b)[..|a + b| - 1] == a + init;
      NonMarkersAppend(a, init);
    }
  }

  /** The lines `key + "," + p` for the stored values `ps`. */
  function Closings(key: string, ps: seq<int>): seq<string>
  {
    seq(|ps|, i requires 0 <= i < |ps| => Joined(key, ps[i]))
  }

  /** Everything one `reduce(key, values)` call writes: nothing unless an "edge
      exists" record is among the values, and then one line per other value. */
  function CloseTriangles(key: string, values: seq<int>): seq<string>
  {
    if EdgeMarker in values then Closings(key, NonMarkers(values)) else []
  }

  /** One `reduce` call on a group of the shuffle. */
  function CloseGroup(g: Group<string, int>): seq<string>
  {
    CloseTriangles(g.key, g.values)
  }

  lemma ClosingsSnoc(key: string, ps: seq<int>, p: int)
    ensures Closings(key, ps + [p]) == Closings(key, ps) + [Joined(key, p)]
  {
  }

  /** The line of `p` appears as often as `p` is stored, and no line is shared by
      two different values. */
  lemma {:induction false} ClosingsCount(key: string, ps: seq<int>, p: int)
    ensures multiset(Closings(key, ps))[Joined(key, p)] == multiset(ps)[p]
  {
    if ps != [] {
      var init, last := ps[..|ps| - 1], ps[|ps| - 1];
      assert ps == init + [last];
      ClosingsSnoc(key, init, last);
      ClosingsCount(key, init, p);
      if Joined(key, last) == Joined(key, p) {
        JoinedInjective(key, last, key, p);
      }
    }
  }

  /** A reduce call writes the line of `v` once per occurrence of `v` among its
      values if some "edge exists" record is there too, and never otherwise. */
  lemma CloseTrianglesCount(key: string, values: seq<int>, v: int)
    requires v != EdgeMarker
    ensures multiset(CloseTriangles(key, values))[Joined(key, v)]
            == if EdgeMarker in values then multiset(values)[v] else 0
  {
    ClosingsCount(key, NonMarkers(values), v);
    NonMarkersCount(values, v);
  }

  /** A marker in the middle of the values leaves the stored values as they were. */
  lemma NonMarkersSkipMarker(a: seq<int>, b: seq<int>)
    ensures NonMarkers(a + [EdgeMarker] + b) == NonMarkers(a + b)
  {
    var front := a + [EdgeMarker];
    NonMarkersAppend(front, b);
    NonMarkersAppend(a, [EdgeMarker]);
    NonMarkersOfMarker();
    assert NonMarkers(front) == NonMarkers(a);
    NonMarkersAppend(a, b);
  }

  lemma NonMarkersOfMarker()
    ensures NonMarkers([EdgeMarker]) == []
  {
    assert [EdgeMarker][..0] == [];
  }

  /** Once an "edge exists" record is among the values, a further one anywhere
      changes nothing: it only sets the flag that is already set. */
  lemma ExtraMarker(key: string, a: seq<int>, b: seq<int>)
    requires EdgeMarker in a + b
    ensures CloseTriangles(key, a + [EdgeMarker] + b) == CloseTriangles(key, a + b)
  {
    var xs := a + [EdgeMarker] + b;
    NonMarkersSkipMarker(a, b);
    assert xs[|a|] == EdgeMarker;
  }

  /** Every line written is the key followed by a value that is not a marker,
      and is written only if a marker is present. */
  lemma CloseTrianglesFrom(key: string, values: seq<int>, t: string)
    requires t in CloseTriangles(key, values)
    ensures EdgeMarker in values
    ensures exists v :: v != EdgeMarker && v in multiset(values) && t == Joined(key, v)
  {
    var ps := NonMarkers(values);
    var i :| 0 <= i < |ps| && t == Joined(key, ps[i]);
    assert ps[i] in multiset(ps);
    NonMarkersCount(values, ps[i]);
  }

  /** The output depends on the values only as a multiset: the order in which the
      shuffle delivers them does not matter. */
  lemma CloseTrianglesOrderFree(key: string, a: seq<int>, b: seq<int>)
    requires multiset(a) == multiset(b)
    ensures multiset(CloseTriangles(key, a)) == multiset(CloseTriangles(key, b))
  {
    assert EdgeMarker in a <==> EdgeMarker in b by {
      assert EdgeMarker in a <==> EdgeMarker in multiset(a);
      assert EdgeMarker in b <==> EdgeMarker in multiset(b);
    }
    var ma, mb := multiset(CloseTriangles(key, a)), multiset(CloseTriangles(key, b));
    forall t ensures ma[t] == mb[t] {
      if t in ma {
        CloseTrianglesFrom(key, a, t);
        var v :| v != EdgeMarker && v in multiset(a) && t == Joined(key, v);
        CloseTrianglesCount(key, a, v);
        CloseTrianglesCount(key, b, v);
      } else if t in mb {
        CloseTrianglesFrom(key, b, t);
        var v :| v != EdgeMarker && v in multiset(b) && t == Joined(key, v);
        CloseTrianglesCount(key, a, v);
        CloseTrianglesCount(key, b, v);
      }
    }
  }

  /** The reducer object: `vArray` and `size` outlive each call. */
  class OutputTriangleReducer {
    var vArray: array<int>
    var size: nat

    /** The buffer holds `size` values and its capacity is 4096 doubled zero or more times. */
    ghost predicate Valid()
      reads this
    {
      size <= vArray.Length && Doubles(InitialCapacity, vArray.Length)
    }

    constructor ()
      ensures Valid() && fresh(vArray)
      ensures vArray.Length == InitialCapacity && size == 0
    {
      vArray := new int[InitialCapacity](_ => 0);
      size := 0;
    }

    /** One `reduce` call per group, in order, on this object. */
    method ReduceAll(groups: seq<Group<string, int>>) returns (written: seq<string>)
      requires Valid()
      modifies this, vArray
      ensures Valid()
      ensures written == FlatMap(groups, CloseGroup)
    {
      written := [];
      for i := 0 to |groups|
        invariant Valid() && (vArray == old(vArray) || fresh(vArray))
        invariant written == FlatMap(groups[..i], CloseGroup)
      {
        var out := Reduce(groups[i].key, groups[i].values);
        FlatMapPrefix(groups, i, CloseGroup);
        written := written + out;
      }
      assert groups[..|groups|] == groups;
    }

    /** `reduce(key, values, context)`: returns the lines it writes. The outer
        `while` runs its body at most once, since the inner loop drains the
        iterator; on an empty group neither runs and `size` keeps its old value. */
    method Reduce(key: string, values: seq<int>) returns (out: seq<string>)
      requires Valid()
      modifies this, vArray
      ensures Valid()
      ensures out == CloseTriangles(key, values)
      ensures |values| > 0 ==> vArray[..size] == NonMarkers(values)
      ensures |values| == 0 ==> size == old(size) && vArray == old(vArray) && vArray[..] == old(vArray[..])
      ensures Doubles(old(vArray.Length), vArray.Length)
      ensures vArray.Length == old(vArray.Length) || vArray.Length <= 2 * size
      ensures vArray == old(vArray) || fresh(vArray)
    {
      var isClosed := false;
      if |values| > 0 {
        isClosed := Collect(values);
      }
      if isClosed {
        out := EmitClosed(key);
      } else {
        out := [];
      }
    }

    /** The inner `for` loop: reset `size`, then for each value double the buffer
        if it is full, note a marker, or store any other value. */
    method Collect(values: seq<int>) returns (isClosed: bool)
      requires Valid()
      modifies this, vArray
      ensures Valid()
      ensures isClosed <==> EdgeMarker in values
      ensures vArray[..size] == NonMarkers(values)
      ensures Doubles(old(vArray.Length), vArray.Length)
      ensures vArray.Length == old(vArray.Length) || vArray.Length <= 2 * size
      ensures vArray == old(vArray) || fresh(vArray)
    {
      ghost var capacity := vArray.Length;
      DoublesGrows(InitialCapacity, capacity);
      size := 0;
      isClosed := false;
      var i := 0;
      while i < |values|
        invariant Valid() && i <= |values|
        invariant isClosed <==> EdgeMarker in values[..i]
        invariant vArray[..size] == NonMarkers(values[..i])
        invariant Doubles(capacity, vArray.Length)
        invariant vArray.Length == capacity || vArray.Length <= 2 * size
        invariant vArray == old(vArray) || fresh(vArray)
      {
        if vArray.Length == size {
          DoublesAgain(capacity, vArray.Length);
          Grow();
        }
        var e := values[i];
        assert values[..i + 1] == values[..i] + [e];
        assert values[..i + 1][..i] == values[..i];
        if e == EdgeMarker {
          isClosed := true;
        } else {
          Store(e);
        }
        i := i + 1;
      }
      assert values[..i] == values;
    }

    /** `vArray = Arrays.copyOf(vArray, 2 * vArray.length)` on a full buffer. */
    method Grow()
      requires Valid() && size == vArray.Length
      modifies this
      ensures Valid() && size == old(size)
      ensures fresh(vArray) && vArray.Length == 2 * old(vArray.Length)
      ensures vArray[..size] == old(vArray[..size])
    {
      DoublesGrows(InitialCapacity, vArray.Length);
      DoublesAgain(InitialCapacity, vArray.Length);
      vArray := CopyOf(vArray, 2 * vArray.Length);
    }

    /** `vArray[size++] = e` on a buffer with room. */
    method Store(e: int)
      requires Valid() && size < vArray.Length
      modifies this, vArray
      ensures Valid() && vArray == old(vArray) && size == old(size) + 1
      ensures vArray[..size] == old(vArray[..size]) + [e]
    {
      vArray[size] := e;
      size := size + 1;
    }

    /** The output loop over the stored values. */
    method EmitClosed(key: string) returns (out: seq<string>)
      requires Valid()
      ensures out == Closings(key, vArray[..size])
    {
      out := [];
      var i := 0;
      while i < size
        invariant i <= size
        invariant out == Closings(key, vArray[..i])
      {
        ClosingsSnoc(key, vArray[..i], vArray[i]);
        assert vArray[..i + 1] == vArray[..i] + [vArray[i]];
        out := out + [Joined(key, vArray[i])];
        i := i + 1;
      }
    }
  }
}
