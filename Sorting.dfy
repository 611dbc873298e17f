/** `Arrays.sort(a, 0, n)` on `long` values: the reducer sorts the first `n` slots
    of its buffer ascending. The library's dual-pivot quicksort is replaced by an
    insertion sort with the same contract; `SortSeq` is the reference definition. */
module Sorting {

  predicate Sorted(s: seq<int>) {
    forall i, j :: 0 <= i < j < |s| ==> s[i] <= s[j]
  }

  predicate StrictlySorted(s: seq<int>) {
    forall i, j :: 0 <= i < j < |s| ==> s[i] < s[j]
  }

  predicate Distinct<T(==)>(s: seq<T>) {
    forall i, j :: 0 <= i < j < |s| ==> s[i] != s[j]
  }

  /** `x` inserted into the sorted `s` at its place. */
  function Insert(x: int, s: seq<int>): (r: seq<int>)
    requires Sorted(s)
    ensures Sorted(r)
    ensures multiset(r) == multiset(s) + multiset{x}
    ensures r[0] == x || (s != [] && r[0] == s[0])
  {
    if s == [] || x <= s[0] then
      SortedCons(x, s);
      [x] + s
    else
      assert s == [s[0]] + s[1..];
      var t := Insert(x, s[1..]);
      assert s[0] <= t[0];
      SortedCons(s[0], t);
      [s[0]] + t
  }

  /** A value no larger than the head of a sorted sequence can go in front of it. */
  lemma SortedCons(y: int, t: seq<int>)
    requires Sorted(t) && (t == [] || y <= t[0])
    ensures Sorted([y] + t)
  {
  }

  /** The ascending arrangement of `s`. */
  function SortSeq(s: seq<int>): (r: seq<int>)
    ensures Sorted(r)
    ensures multiset(r) == multiset(s)
  {
    if s == [] then
      []
    else
      assert s == [s[0]] + s[1..];
      Insert(s[0], SortSeq(s[1..]))
  }

  /** There is only one ascending arrangement of a multiset of numbers. */
  lemma {:induction false} SortedUnique(a: seq<int>, b: seq<int>)
    requires Sorted(a) && Sorted(b)
    requires multiset(a) == multiset(b)
    ensures a == b
  {
    if a == [] || b == [] {
      assert |a| == |multiset(a)| == |multiset(b)| == |b|;
    } else {
      var a', b' := a[1..], b[1..];
      assert a == [a[0]] + a';
      assert b == [b[0]] + b';
      assert a[0] in multiset(a) && b[0] in multiset(b);
      SortedHeadLeast(b, a[0]);
      SortedHeadLeast(a, b[0]);
      TailsAgree(a, b);
      SortedTail(a);
      SortedTail(b);
      SortedUnique(a', b');
    }
  }

  /** Equal multisets with equal heads have tails with equal multisets. */
  lemma TailsAgree(a: seq<int>, b: seq<int>)
    requires a != [] && b != [] && a[0] == b[0]
    requires multiset(a) == multiset(b)
    ensures multiset(a[1..]) == multiset(b[1..])
  {
    assert a == [a[0]] + a[1..];
    assert b == [b[0]] + b[1..];
    assert multiset(a[1..]) == multiset(a) - multiset{a[0]};
    assert multiset(b[1..]) == multiset(b) - multiset{b[0]};
  }

  lemma SortedTail(s: seq<int>)
    requires Sorted(s) && s != []
    ensures Sorted(s[1..])
  {
    assert forall k :: 0 <= k < |s[1..]| ==> s[1..][k] == s[k + 1];
  }

  lemma SortedHeadLeast(s: seq<int>, x: int)
    requires Sorted(s) && x in multiset(s)
    ensures s[0] <= x
  {
    var k :| 0 <= k < |s| && s[k] == x;
  }

  /** A duplicate-free sequence holds each value at most once, and conversely. */
  lemma {:induction false} DistinctCounts<T>(s: seq<T>)
    ensures Distinct(s) <==> forall x :: multiset(s)[x] <= 1
  {
    if s != [] {
      assert s == [s[0]] + s[1..];
      DistinctCounts(s[1..]);
      if Distinct(s) {
        assert s[0] !in s[1..];
      } else {
        var i, j :| 0 <= i < j < |s| && s[i] == s[j];
        if i == 0 {
          assert s[j] in s[1..];
          assert multiset(s)[s[0]] == 1 + multiset(s[1..])[s[0]];
        } else {
          assert s[1..][i - 1] == s[1..][j - 1];
          var x :| multiset(s[1..])[x] > 1;
          assert multiset(s)[x] >= multiset(s[1..])[x];
        }
      }
    }
  }

  /** Sorting a duplicate-free sequence gives a strictly ascending one. */
  lemma SortDistinct(s: seq<int>)
    requires Distinct(s)
    ensures StrictlySorted(SortSeq(s))
  {
    var r := SortSeq(s);
    DistinctCounts(s);
    DistinctCounts(r);
  }

  /** Sorts `a[..n]` ascending in place and leaves the rest of `a` alone. */
  method SortPrefix(a: array<int>, n: nat)
    requires n <= a.Length
    modifies a
    ensures a[..n] == SortSeq(old(a[..n]))
    ensures a[n..] == old(a[n..])
  {
    var i := 0;
    while i < n
      invariant 0 <= i <= n
      invariant Sorted(a[..i])
      invariant multiset(a[..n]) == multiset(old(a[..n]))
      invariant a[n..] == old(a[n..])
    {
      InsertLast(a, i, n);
      i := i + 1;
    }
    SortedUnique(a[..n], SortSeq(old(a[..n])));
  }

  /** `s[..i + 1]` is sorted but for the element at `j`, which is below everything after it. */
  ghost predicate SortedExcept(s: seq<int>, j: nat, i: nat)
    requires j <= i < |s|
  {
    && (forall x, y :: 0 <= x < y <= i && x != j && y != j ==> s[x] <= s[y])
    && (forall y :: j < y <= i ==> s[j] < s[y])
  }

  lemma SwapKeepsSortedExcept(s: seq<int>, j: nat, i: nat)
    requires 0 < j <= i < |s|
    requires SortedExcept(s, j, i) && s[j - 1] > s[j]
    ensures SortedExcept(s[j - 1 := s[j]][j := s[j - 1]], j - 1, i)
  {
  }

  lemma SortedExceptDone(s: seq<int>, j: nat, i: nat)
    requires j <= i < |s|
    requires SortedExcept(s, j, i) && (j == 0 || s[j - 1] <= s[j])
    ensures Sorted(s[..i + 1])
  {
    forall x, y | 0 <= x < y <= i ensures s[x] <= s[y] {
      if y == j && x < j {
        assert s[x] <= s[j - 1];
      }
    }
  }

  /** One step of insertion sort: moves `a[i]` down into the sorted `a[..i]`. */
  method InsertLast(a: array<int>, i: nat, n: nat)
    requires i < n <= a.Length
    requires Sorted(a[..i])
    modifies a
    ensures Sorted(a[..i + 1])
    ensures multiset(a[..n]) == multiset(old(a[..n]))
    ensures a[n..] == old(a[n..])
  {
    var j := i;
    assert SortedExcept(a[..n], j, i) by {
      assert forall x :: 0 <= x < i ==> a[..n][x] == a[..i][x];
    }
    while j > 0 && a[j - 1] > a[j]
      invariant 0 <= j <= i
      invariant SortedExcept(a[..n], j, i)
      invariant multiset(a[..n]) == multiset(old(a[..n]))
      invariant a[n..] == old(a[n..])
    {
      ghost var before := a[..n];
      SwapDown(a, j, n);
      SwapKeepsSortedExcept(before, j, i);
      j := j - 1;
    }
    SortedExceptDone(a[..n], j, i);
    assert a[..i + 1] == a[..n][..i + 1];
  }

  method SwapDown(a: array<int>, j: nat, n: nat)
    requires 0 < j < n <= a.Length
    modifies a
    ensures a[..n] == old(a[..n])[j - 1 := old(a[j])][j := old(a[j - 1])]
    ensures multiset(a[..n]) == multiset(old(a[..n]))
    ensures a[n..] == old(a[n..])
  {
    a[j - 1], a[j] := a[j], a[j - 1];
    assert a[..n] == old(a[..n])[j - 1 := old(a[j])][j := old(a[j - 1])];
  }
}
