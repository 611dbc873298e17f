/** The text keys of the pipeline. A key is a prefix, a comma and the decimal text
    of a number: the stage-1 reducer builds `"a,b"` for an edge or a candidate
    pair, and the stage-2 reducer writes `"q,r,p"` for a triangle. */
module Keys {
  import opened Decimal
  import Tokenizer

  /** `prefix + "," + Long.toString(x)`. */
  function Joined(prefix: string, x: int): string
  {
    prefix + "," + Format(x)
  }

  /** The key `Long.toString(a) + "," + Long.toString(b)` of the pair `(a, b)`. */
  function EdgeKey(a: int, b: int): string
  {
    Joined(Format(a), b)
  }

  /** The output line `"q,r,p"` of the triangle whose closing pair is `(q, r)` and
      whose third vertex is `p`. */
  function TriangleText(p: int, q: int, r: int): string
  {
    Joined(EdgeKey(q, r), p)
  }

  /** The comma that `Joined` writes is the last comma of the result. */
  lemma LastComma(u: string, x: int)
    ensures Joined(u, x)[|u|] == ','
    ensures forall i :: |u| < i < |Joined(u, x)| ==> Joined(u, x)[i] != ','
  {
    var w := Joined(u, x);
    forall i | |u| < i < |w| ensures w[i] != ',' {
      assert w[i] == Format(x)[i - |u| - 1];
    }
  }

  /** The number after the last comma and the text before it determine a joined key. */
  lemma JoinedInjective(u: string, x: int, v: string, y: int)
    requires Joined(u, x) == Joined(v, y)
    ensures u == v && x == y
  {
    LastComma(u, x);
    LastComma(v, y);
    var w := Joined(u, x);
    assert |u| == |v|;
    assert u == w[..|u|] == v;
    assert Format(x) == w[|u| + 1..] == Format(y);
    FormatInjective(x, y);
  }

  lemma EdgeKeyInjective(a: int, b: int, c: int, d: int)
    requires EdgeKey(a, b) == EdgeKey(c, d)
    ensures a == c && b == d
  {
    JoinedInjective(Format(a), b, Format(c), d);
    FormatInjective(a, c);
  }

  /** A triangle line names its three vertices: distinct triples give distinct lines. */
  lemma TriangleTextInjective(p: int, q: int, r: int, p': int, q': int, r': int)
    requires TriangleText(p, q, r) == TriangleText(p', q', r')
    ensures p == p' && q == q' && r == r'
  {
    JoinedInjective(EdgeKey(q, r), p, EdgeKey(q', r'), p');
    EdgeKeyInjective(q, r, q', r');
  }

  /** A key is a single token: no delimiter can split it. */
  lemma EdgeKeyIsWord(a: int, b: int)
    ensures Tokenizer.IsWord(EdgeKey(a, b))
  {
    var k := EdgeKey(a, b);
    forall i | 0 <= i < |k| ensures !Tokenizer.IsDelimiter(k[i]) {
      if i < |Format(a)| {
        assert k[i] == Format(a)[i];
      } else if i > |Format(a)| {
        assert k[i] == Format(b)[i - |Format(a)| - 1];
      }
    }
  }
}
