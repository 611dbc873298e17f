/** `ParseLongLongPairsMapper.map` (TriangleOutputer.java:23-42): one raw line of the
    edge list becomes at most one canonical edge record `(low, high)`; the map phase
    runs it over every line of the input. */
module EdgeParsing {
  import opened Outcomes
  import opened Decimal
  import opened Tokenizer
  import opened Shuffle

  /** An edge record keeps its lower endpoint as key and its higher one as value. */
  predicate IsCanonical(e: Pair<int, int>) {
    IsLong(e.key) && IsLong(e.value) && e.key < e.value
  }

  /** One call of `map` on `line`: parse the first token, insist on a second, parse
      it, and write the pair only when the first number is below the second. */
  function MapEdgeLine(line: string): (r: Emitted<Pair<int, int>>)
    ensures r.Emit? ==> IsCanonical(r.record)
    ensures r.Emit? ==> |Tokens(line)| >= 2 && Parse(Tokens(line)[0]) == Some(r.record.key)
                        && Parse(Tokens(line)[1]) == Some(r.record.value)
    ensures |Tokens(line)| == 0 ==> r == Skip
    ensures |Tokens(line)| == 1 ==> r.Fail?
    ensures |Tokens(line)| >= 1 && Parse(Tokens(line)[0]).None? ==> r == Fail(BadNumber(Tokens(line)[0]))
    ensures |Tokens(line)| >= 2 && Parse(Tokens(line)[0]).Some? && Parse(Tokens(line)[1]).None? ==>
              r == Fail(BadNumber(Tokens(line)[1]))
    ensures |Tokens(line)| >= 2 && Parse(Tokens(line)[0]).Some? && Parse(Tokens(line)[1]).Some? ==>
              r == (if Parse(Tokens(line)[0]).value < Parse(Tokens(line)[1]).value
                    then Emit(Pair(Parse(Tokens(line)[0]).value, Parse(Tokens(line)[1]).value))
                    else Skip)
  {
    var ts := Tokens(line);
    if |ts| == 0 then
      Skip
    else
      match Parse(ts[0])
      case None => Fail(BadNumber(ts[0]))
      case Some(a) =>
        if |ts| < 2 then
          Fail(InvalidLine("invalid edge line " + line))
        else
          match Parse(ts[1])
          case None => Fail(BadNumber(ts[1]))
          case Some(b) => if a < b then Emit(Pair(a, b)) else Skip
  }

  /** A line holding two numbers, followed by any further tokens, yields the edge
      when the first is smaller and nothing otherwise: the tokens after the second
      are ignored, and a pair given high-first is dropped, not swapped. */
  lemma EdgeLineOfNumbers(a: int, b: int, rest: seq<string>, d: char)
    requires IsLong(a) && IsLong(b) && IsDelimiter(d)
    requires forall i :: 0 <= i < |rest| ==> IsWord(rest[i])
    ensures MapEdgeLine(Join([Format(a), Format(b)] + rest, d)) == if a < b then Emit(Pair(a, b)) else Skip
  {
    var ts := [Format(a), Format(b)] + rest;
    TokensOfJoin(ts, d);
    ParseFormat(a);
    ParseFormat(b);
  }

  /** A line with a single number makes the mapper throw. */
  lemma LoneNumberFails(a: int)
    requires IsLong(a)
    ensures MapEdgeLine(Format(a)) == Fail(InvalidLine("invalid edge line " + Format(a)))
  {
    TokensOfJoin([Format(a)], ' ');
    ParseFormat(a);
  }

  /** The map phase over all input lines: the records in line order, or the
      failure of the first line whose `map` throws. */
  function MapEdgeLines(lines: seq<string>): (r: Result<seq<Pair<int, int>>>)
    ensures r.Ok? <==> forall i :: 0 <= i < |lines| ==> !MapEdgeLine(lines[i]).Fail?
    ensures r.Ok? ==> |r.value| <= |lines|
    ensures r.Ok? ==> forall i :: 0 <= i < |r.value| ==> IsCanonical(r.value[i])
  {
    if lines == [] then
      Ok([])
    else
      match MapEdgeLine(lines[0])
      case Fail(f) => Err(f)
      case Skip => MapEdgeLines(lines[1..])
      case Emit(e) =>
        match MapEdgeLines(lines[1..])
        case Err(f) => Err(f)
        case Ok(es) => Ok([e] + es)
  }

  /** The text line `"a b"` of an edge. */
  function EdgeLine(e: Pair<int, int>): string
  {
    Format(e.key) + " " + Format(e.value)
  }

  /** The lines of an edge list, one edge per line. */
  function EdgeLines(es: seq<Pair<int, int>>): (lines: seq<string>)
    ensures |lines| == |es|
  {
    seq(|es|, i requires 0 <= i < |es| => EdgeLine(es[i]))
  }

  /** A canonical edge is read back from its line. */
  lemma MapEdgeLineOfEdge(e: Pair<int, int>)
    requires IsCanonical(e)
    ensures MapEdgeLine(EdgeLine(e)) == Emit(e)
  {
    EdgeLineOfNumbers(e.key, e.value, [], ' ');
    assert Join([Format(e.key), Format(e.value)], ' ') == EdgeLine(e);
  }

  lemma EdgeLinesTail(es: seq<Pair<int, int>>)
    requires es != []
    ensures EdgeLines(es)[1..] == EdgeLines(es[1..])
  {
    var lines, rest := EdgeLines(es), EdgeLines(es[1..]);
    forall k | 0 <= k < |rest| ensures lines[1..][k] == rest[k] {
      assert es[1..][k] == es[k + 1];
    }
  }

  lemma MapEdgeLinesCons(lines: seq<string>, e: Pair<int, int>, es: seq<Pair<int, int>>)
    requires lines != [] && MapEdgeLine(lines[0]) == Emit(e)
    requires MapEdgeLines(lines[1..]) == Ok(es)
    ensures MapEdgeLines(lines) == Ok([e] + es)
  {
  }

  /** An edge list written one canonical edge per line is read back unchanged. */
  lemma {:induction false} MapEdgeLinesOfEdges(es: seq<Pair<int, int>>)
    requires forall i :: 0 <= i < |es| ==> IsCanonical(es[i])
    ensures MapEdgeLines(EdgeLines(es)) == Ok(es)
  {
    if es != [] {
      var lines := EdgeLines(es);
      EdgeLinesTail(es);
      assert es == [es[0]] + es[1..];
      MapEdgeLinesOfEdges(es[1..]);
      MapEdgeLineOfEdge(es[0]);
      MapEdgeLinesCons(lines, es[0], es[1..]);
    }
  }
}
