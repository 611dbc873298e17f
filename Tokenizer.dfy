/** `java.util.StringTokenizer` with its default delimiters: a line is cut into the
    maximal runs of non-delimiter characters, and the delimiters are dropped. */
module Tokenizer {

  /** The default delimiter set: space, tab, newline, carriage return and form feed. */
  predicate IsDelimiter(c: char) {
    c == ' ' || c == '\t' || c == '\n' || c == '\r' || c == '\U{000C}'
  }

  /** A token: non-empty, without delimiters. */
  predicate IsWord(s: string) {
    |s| > 0 && forall i :: 0 <= i < |s| ==> !IsDelimiter(s[i])
  }

  /** The length of the run of non-delimiters at the start of `s`. */
  function WordLength(s: string): (n: nat)
    ensures n <= |s|
    ensures forall i :: 0 <= i < n ==> !IsDelimiter(s[i])
    ensures n < |s| ==> IsDelimiter(s[n])
  {
    if s == [] || IsDelimiter(s[0]) then 0 else 1 + WordLength(s[1..])
  }

  /** The tokens of `s`, in order, as successive `nextToken()` calls return them. */
  function Tokens(s: string): (ts: seq<string>)
    ensures forall i :: 0 <= i < |ts| ==> IsWord(ts[i])
    decreases |s|
  {
    if s == [] then []
    else if IsDelimiter(s[0]) then Tokens(s[1..])
    else
      var n := WordLength(s);
      [s[..n]] + Tokens(s[n..])
  }

  /** The words `ts` written one after another with one `d` between neighbours. */
  function Join(ts: seq<string>, d: char): string
  {
    if |ts| == 0 then []
    else if |ts| == 1 then ts[0]
    else ts[0] + [d] + Join(ts[1..], d)
  }

  lemma {:induction false} WordLengthOfWord(w: string, rest: string)
    requires forall i :: 0 <= i < |w| ==> !IsDelimiter(w[i])
    requires rest == [] || IsDelimiter(rest[0])
    ensures WordLength(w + rest) == |w|
  {
    if w != [] {
      assert (w + rest)[1..] == w[1..] + rest;
      WordLengthOfWord(w[1..], rest);
    }
  }

  /** A word followed by nothing or by a delimiter is the next token. */
  lemma TokensAfterWord(w: string, rest: string)
    requires IsWord(w)
    requires rest == [] || IsDelimiter(rest[0])
    ensures Tokens(w + rest) == [w] + Tokens(rest)
  {
    WordLengthOfWord(w, rest);
    var s := w + rest;
    assert s[..|w|] == w && s[|w|..] == rest;
  }

  /** Tokenizing undoes joining with a delimiter: the partner of `Join`. */
  lemma {:induction false} TokensOfJoin(ts: seq<string>, d: char)
    requires IsDelimiter(d)
    requires forall i :: 0 <= i < |ts| ==> IsWord(ts[i])
    ensures Tokens(Join(ts, d)) == ts
  {
    if |ts| == 1 {
      TokensAfterWord(ts[0], []);
      assert ts[0] + [] == ts[0];
    } else if |ts| > 1 {
      var rest := [d] + Join(ts[1..], d);
      assert Join(ts, d) == ts[0] + rest;
      TokensAfterWord(ts[0], rest);
      assert rest[1..] == Join(ts[1..], d);
      TokensOfJoin(ts[1..], d);
      assert ts == [ts[0]] + ts[1..];
    }
  }
}
