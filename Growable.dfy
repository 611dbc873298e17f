/** The growable `long[]` buffers both reducers keep between calls: they start with
    4096 slots and, when a value arrives and every slot is taken, are replaced by
    `Arrays.copyOf(buffer, 2 * buffer.length)`. */
module Growable {

  const InitialCapacity: nat := 4096

  /** `big` is `small` doubled zero or more times. */
  predicate Doubles(small: nat, big: nat)
    decreases big
  {
    big == small || (small > 0 && big > small && big % 2 == 0 && Doubles(small, big / 2))
  }

  lemma DoublesAgain(small: nat, big: nat)
    requires small > 0 && Doubles(small, big)
    ensures Doubles(small, 2 * big)
  {
    assert (2 * big) / 2 == big;
  }

  lemma {:induction false} DoublesOfDouble(small: nat, big: nat)
    requires small > 0 && Doubles(2 * small, big)
    ensures Doubles(small, big)
    decreases big
  {
    if big != 2 * small {
      DoublesOfDouble(small, big / 2);
    } else {
      assert big / 2 == small;
    }
  }

  /** A doubled capacity is never below where it started. */
  lemma {:induction false} DoublesGrows(small: nat, big: nat)
    requires Doubles(small, big)
    ensures small <= big
    decreases big
  {
    if big != small {
      DoublesGrows(small, big / 2);
    }
  }

  /** The capacity a buffer of capacity `c` has once `n` values have been put into it,
      doubling whenever a value arrives and the buffer is full. */
  function GrownCapacity(c: nat, n: nat): (r: nat)
    requires c > 0
    ensures n <= r
    ensures Doubles(c, r)
    ensures r > c ==> r < 2 * n
    decreases if n <= c then 0 else n - c
  {
    if n <= c then
      c
    else
      var r := GrownCapacity(2 * c, n);
      DoublesOfDouble(c, r);
      r
  }

  /** Appending the value number `n + 1` doubles the capacity exactly when the
      first `n` values fill it. */
  lemma {:induction false} GrownCapacityStep(c: nat, n: nat)
    requires c > 0
    ensures GrownCapacity(c, n + 1) ==
            if GrownCapacity(c, n) == n then 2 * GrownCapacity(c, n) else GrownCapacity(c, n)
    decreases if n <= c then 0 else n - c
  {
    if n > c {
      GrownCapacityStep(2 * c, n);
    }
  }

  /** `Arrays.copyOf(a, length)`: a new array holding `a`'s values, padded with zeros. */
  method CopyOf(a: array<int>, length: nat) returns (b: array<int>)
    requires a.Length <= length
    ensures fresh(b) && b.Length == length
    ensures b[..a.Length] == a[..]
    ensures forall i :: a.Length <= i < length ==> b[i] == 0
  {
    b := new int[length](_ => 0);
    forall i | 0 <= i < a.Length {
      b[i] := a[i];
    }
  }
}
