/** The shuffle between a map phase and a reduce phase, as an in-process group-by:
    the records a map phase wrote are gathered by key, and each key with all its
    values is handed to one `reduce` call. Keys come in the order of their first
    appearance and each key's values in the order they were written. */
module Shuffle {
  import opened Sorting

  /** A record written with `context.write(key, value)`. */
  datatype Pair<K, V> = Pair(key: K, value: V)

  /** What one `reduce(key, values, context)` call receives. */
  datatype Group<K, V> = Group(key: K, values: seq<V>)

  /** `f` applied to each element, outputs concatenated in order. */
  function FlatMap<A, B>(xs: seq<A>, f: A -> seq<B>): seq<B>
  {
    if xs == [] then [] else f(xs[0]) + FlatMap(xs[1..], f)
  }

  lemma {:induction false} FlatMapAppend<A, B>(xs: seq<A>, ys: seq<A>, f: A -> seq<B>)
    ensures FlatMap(xs + ys, f) == FlatMap(xs, f) + FlatMap(ys, f)
  {
    if xs != [] {
      assert (xs + ys)[1..] == xs[1..] + ys;
      FlatMapAppend(xs[1..], ys, f);
    } else {
      assert xs + ys == ys;
    }
  }

  /** The outputs of one more input come last. */
  lemma FlatMapSnoc<A, B>(xs: seq<A>, x: A, f: A -> seq<B>)
    ensures FlatMap(xs + [x], f) == FlatMap(xs, f) + f(x)
  {
    FlatMapAppend(xs, [x], f);
    assert [x][1..] == [];
  }

  /** The outputs of the first `i + 1` inputs. */
  lemma FlatMapPrefix<A, B>(xs: seq<A>, i: nat, f: A -> seq<B>)
    requires i < |xs|
    ensures FlatMap(xs[..i + 1], f) == FlatMap(xs[..i], f) + f(xs[i])
  {
    assert xs[..i + 1] == xs[..i] + [xs[i]];
    FlatMapSnoc(xs[..i], xs[i], f);
  }

  /** When only the input at `j` can produce `y`, `y` occurs in the concatenation
      exactly as often as in that input's outputs. */
  lemma {:induction false} FlatMapCountOne<A, B>(xs: seq<A>, f: A -> seq<B>, y: B, j: nat)
    requires j < |xs|
    requires forall i :: 0 <= i < |xs| && i != j ==> y !in f(xs[i])
    ensures multiset(FlatMap(xs, f))[y] == multiset(f(xs[j]))[y]
  {
    if j == 0 {
      assert forall i :: 0 <= i < |xs[1..]| ==> xs[1..][i] == xs[i + 1];
      FlatMapAbsent(xs[1..], f, y);
    } else {
      FlatMapCountOne(xs[1..], f, y, j - 1);
    }
  }

  /** What no input produces is not among the outputs. */
  lemma {:induction false} FlatMapAbsent<A, B>(xs: seq<A>, f: A -> seq<B>, y: B)
    requires forall i :: 0 <= i < |xs| ==> y !in f(xs[i])
    ensures y !in FlatMap(xs, f)
  {
    if xs != [] {
      assert forall i :: 0 <= i < |xs[1..]| ==> xs[1..][i] == xs[i + 1];
      FlatMapAbsent(xs[1..], f, y);
    }
  }

  /** An output comes from some input. */
  lemma {:induction false} FlatMapMember<A, B>(xs: seq<A>, f: A -> seq<B>, y: B)
    requires y in FlatMap(xs, f)
    ensures exists i :: 0 <= i < |xs| && y in f(xs[i])
  {
    if y !in f(xs[0]) {
      FlatMapMember(xs[1..], f, y);
      var i :| 0 <= i < |xs[1..]| && y in f(xs[1..][i]);
      assert xs[1..][i] == xs[i + 1];
    }
  }

  /** Every input's outputs are among the outputs. */
  lemma {:induction false} FlatMapContains<A, B>(xs: seq<A>, f: A -> seq<B>, i: nat, y: B)
    requires i < |xs| && y in f(xs[i])
    ensures y in FlatMap(xs, f)
  {
    if i > 0 {
      FlatMapContains(xs[1..], f, i - 1, y);
    }
  }

  /** Two functions that agree on every element give the same concatenation. */
  lemma {:induction false} FlatMapCongruent<A, B>(xs: seq<A>, f: A -> seq<B>, g: A -> seq<B>)
    requires forall i :: 0 <= i < |xs| ==> f(xs[i]) == g(xs[i])
    ensures FlatMap(xs, f) == FlatMap(xs, g)
  {
    if xs != [] {
      FlatMapCongruent(xs[1..], f, g);
    }
  }

  /** The distinct keys of `rs`, in the order of their first appearance. */
  function KeysOf<K(==), V>(rs: seq<Pair<K, V>>): (ks: seq<K>)
    ensures Distinct(ks)
    ensures forall i :: 0 <= i < |rs| ==> rs[i].key in ks
    ensures forall k :: k in ks ==> exists i :: 0 <= i < |rs| && rs[i].key == k
  {
    if rs == [] then
      []
    else
      var front := rs[..|rs| - 1];
      var ks := KeysOf(front);
      assert forall i :: 0 <= i < |front| ==> front[i] == rs[i];
      if rs[|rs| - 1].key in ks then ks else ks + [rs[|rs| - 1].key]
  }

  /** The records of `rs` whose key is `k`, in order. */
  function FilterKey<K(==), V>(rs: seq<Pair<K, V>>, k: K): (r: seq<Pair<K, V>>)
    ensures forall i :: 0 <= i < |r| ==> r[i].key == k
    ensures forall i :: 0 <= i < |r| ==> r[i] in rs
    ensures forall i :: 0 <= i < |rs| && rs[i].key == k ==> rs[i] in r
  {
    if rs == [] then []
    else (if rs[0].key == k then [rs[0]] else []) + FilterKey(rs[1..], k)
  }

  /** The values written with key `k`, in order. */
  function ValuesFor<K(==), V>(rs: seq<Pair<K, V>>, k: K): (vs: seq<V>)
  {
    var r := FilterKey(rs, k);
    seq(|r|, i requires 0 <= i < |r| => r[i].value)
  }

  lemma ValuesForMember<K, V>(rs: seq<Pair<K, V>>, k: K, v: V)
    ensures v in ValuesFor(rs, k) <==> Pair(k, v) in rs
  {
    var r := FilterKey(rs, k);
    if Pair(k, v) in rs {
      var i :| 0 <= i < |r| && r[i] == Pair(k, v);
      assert ValuesFor(rs, k)[i] == v;
    }
  }

  /** The records of a duplicate-free sequence with one key are duplicate-free. */
  lemma {:induction false} FilterKeyDistinct<K, V>(rs: seq<Pair<K, V>>, k: K)
    requires Distinct(rs)
    ensures Distinct(FilterKey(rs, k))
  {
    if rs != [] {
      FilterKeyDistinct(rs[1..], k);
      var rest := FilterKey(rs[1..], k);
      assert rs[0] !in rs[1..];
      assert forall i :: 0 <= i < |rest| ==> rest[i] in rs[1..];
    }
  }

  /** Without duplicate records, no key is written twice with the same value. */
  lemma ValuesForDistinct<K, V>(rs: seq<Pair<K, V>>, k: K)
    requires Distinct(rs)
    ensures Distinct(ValuesFor(rs, k))
  {
    var r := FilterKey(rs, k);
    var vs := ValuesFor(rs, k);
    FilterKeyDistinct(rs, k);
    forall i, j | 0 <= i < j < |vs| ensures vs[i] != vs[j] {
      assert r[i] == Pair(k, vs[i]) && r[j] == Pair(k, vs[j]);
    }
  }

  /** The records of one group, as the map phase wrote them. */
  function Ungroup<K, V>(g: Group<K, V>): seq<Pair<K, V>>
  {
    seq(|g.values|, i requires 0 <= i < |g.values| => Pair(g.key, g.values[i]))
  }

  /** The group-by-key that the framework performs between map and reduce. */
  function GroupByKey<K(==), V>(rs: seq<Pair<K, V>>): (gs: seq<Group<K, V>>)
    ensures |gs| == |KeysOf(rs)|
    ensures forall i :: 0 <= i < |gs| ==> gs[i].key == KeysOf(rs)[i]
    ensures forall i :: 0 <= i < |gs| ==> Ungroup(gs[i]) == FilterKey(rs, gs[i].key)
    ensures forall i :: 0 <= i < |gs| ==> gs[i].values == ValuesFor(rs, gs[i].key)
  {
    var ks := KeysOf(rs);
    seq(|ks|, i requires 0 <= i < |ks| => Group(ks[i], ValuesFor(rs, ks[i])))
  }

  /** The records of `rs` whose key is in `keys`, in order. */
  function FilterKeys<K(==), V>(rs: seq<Pair<K, V>>, keys: set<K>): seq<Pair<K, V>>
  {
    if rs == [] then []
    else (if rs[0].key in keys then [rs[0]] else []) + FilterKeys(rs[1..], keys)
  }

  lemma {:induction false} FilterKeysSplit<K, V, O>(rs: seq<Pair<K, V>>, k: K, keys: set<K>, f: Pair<K, V> -> seq<O>)
    requires k !in keys
    ensures multiset(FlatMap(FilterKeys(rs, {k} + keys), f))
         == multiset(FlatMap(FilterKey(rs, k), f)) + multiset(FlatMap(FilterKeys(rs, keys), f))
  {
    if rs != [] {
      var x, rest := rs[0], rs[1..];
      var all, one, others := FilterKeys(rest, {k} + keys), FilterKey(rest, k), FilterKeys(rest, keys);
      FilterKeysSplit(rest, k, keys, f);
      if x.key == k {
        assert FilterKeys(rs, {k} + keys) == [x] + all;
        assert FilterKey(rs, k) == [x] + one;
        assert FilterKeys(rs, keys) == others;
        FlatMapAppend([x], all, f);
        FlatMapAppend([x], one, f);
      } else if x.key in keys {
        assert FilterKeys(rs, {k} + keys) == [x] + all;
        assert FilterKey(rs, k) == one;
        assert FilterKeys(rs, keys) == [x] + others;
        FlatMapAppend([x], all, f);
        FlatMapAppend([x], others, f);
      } else {
        assert FilterKeys(rs, {k} + keys) == all;
        assert FilterKey(rs, k) == one;
        assert FilterKeys(rs, keys) == others;
      }
    }
  }

  lemma {:induction false} FilterKeysAll<K, V>(rs: seq<Pair<K, V>>, keys: set<K>)
    requires forall i :: 0 <= i < |rs| ==> rs[i].key in keys
    ensures FilterKeys(rs, keys) == rs
  {
    if rs != [] {
      FilterKeysAll(rs[1..], keys);
      assert rs == [rs[0]] + rs[1..];
    }
  }

  function GroupKeys<K, V>(gs: seq<Group<K, V>>): set<K>
  {
    set i | 0 <= i < |gs| :: gs[i].key
  }

  lemma {:induction false} PerGroupMultiset<K, V, O>(rs: seq<Pair<K, V>>, gs: seq<Group<K, V>>, f: Pair<K, V> -> seq<O>)
    requires forall i, j :: 0 <= i < j < |gs| ==> gs[i].key != gs[j].key
    ensures multiset(FlatMap(gs, (g: Group<K, V>) => FlatMap(FilterKey(rs, g.key), f)))
         == multiset(FlatMap(FilterKeys(rs, GroupKeys(gs)), f))
  {
    if gs == [] {
      assert GroupKeys(gs) == {};
      assert FilterKeys(rs, {}) == [] by {
        EmptyFilter(rs);
      }
    } else {
      var rest := gs[1..];
      PerGroupMultiset(rs, rest, f);
      assert GroupKeys(gs) == {gs[0].key} + GroupKeys(rest) by {
        forall k | k in GroupKeys(gs) ensures k in {gs[0].key} + GroupKeys(rest) {
          var i :| 0 <= i < |gs| && gs[i].key == k;
          if i > 0 {
            assert rest[i - 1].key == k;
          }
        }
        forall k | k in GroupKeys(rest) ensures k in GroupKeys(gs) {
          var i :| 0 <= i < |rest| && rest[i].key == k;
          assert gs[i + 1].key == k;
        }
      }
      assert gs[0].key !in GroupKeys(rest);
      FilterKeysSplit(rs, gs[0].key, GroupKeys(rest), f);
    }
  }

  lemma {:induction false} EmptyFilter<K, V>(rs: seq<Pair<K, V>>)
    ensures FilterKeys(rs, {}) == []
  {
    if rs != [] {
      EmptyFilter(rs[1..]);
    }
  }

  /** Grouping by key and then applying a per-record `f` to each group's records
      yields the same outputs, counted with multiplicity, as applying `f` to the
      records directly: the shuffle neither loses nor invents records. */
  lemma RegroupMultiset<K, V, O>(rs: seq<Pair<K, V>>, f: Pair<K, V> -> seq<O>)
    ensures multiset(FlatMap(GroupByKey(rs), (g: Group<K, V>) => FlatMap(Ungroup(g), f))) == multiset(FlatMap(rs, f))
  {
    var gs := GroupByKey(rs);
    var ks := KeysOf(rs);
    FlatMapCongruent(gs, (g: Group<K, V>) => FlatMap(Ungroup(g), f), (g: Group<K, V>) => FlatMap(FilterKey(rs, g.key), f));
    PerGroupMultiset(rs, gs, f);
    forall i | 0 <= i < |rs| ensures rs[i].key in GroupKeys(gs) {
      var j :| 0 <= j < |ks| && ks[j] == rs[i].key;
      assert gs[j].key == rs[i].key;
    }
    FilterKeysAll(rs, GroupKeys(gs));
  }

  lemma {:induction false} FlatMapSingletons<T>(xs: seq<T>)
    ensures FlatMap(xs, x => [x]) == xs
  {
    if xs != [] {
      FlatMapSingletons(xs[1..]);
      assert xs == [xs[0]] + xs[1..];
    }
  }

  /** The groups hold exactly the records, each once. */
  lemma GroupByKeyPartitions<K, V>(rs: seq<Pair<K, V>>)
    ensures multiset(FlatMap(GroupByKey(rs), Ungroup)) == multiset(rs)
  {
    var single := (x: Pair<K, V>) => [x];
    RegroupMultiset(rs, single);
    FlatMapSingletons(rs);
    forall g: Group<K, V> ensures FlatMap(Ungroup(g), single) == Ungroup(g) {
      FlatMapSingletons(Ungroup(g));
    }
    FlatMapCongruent(GroupByKey(rs), (g: Group<K, V>) => FlatMap(Ungroup(g), single), Ungroup);
  }
}
