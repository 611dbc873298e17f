/** `ParseTextLongPairsMapper.map` (TriangleOutputer.java:94-106): one line of the
    first job's text output, `key TAB value`, becomes the record `(key, value)` of
    the second job. */
module IntermediateParsing {
  import opened Outcomes
  import opened Decimal
  import opened Tokenizer
  import opened Shuffle

  /** One call of `map` on `line`: the first token is the key as it stands, the
      second must parse as a `long`; a line with one token makes the mapper throw. */
  function MapIntermediateLine(line: string): (r: Emitted<Pair<string, int>>)
    ensures r.Emit? <==> |Tokens(line)| >= 2 && Parse(Tokens(line)[1]).Some?
    ensures r.Emit? ==> r.record == Pair(Tokens(line)[0], Parse(Tokens(line)[1]).value)
    ensures r.Emit? ==> IsWord(r.record.key) && IsLong(r.record.value)
    ensures r == Skip <==> |Tokens(line)| == 0
  {
    var ts := Tokens(line);
    if |ts| == 0 then
      Skip
    else if |ts| < 2 then
      Fail(InvalidLine("invalid intermediate line " + line))
    else
      match Parse(ts[1])
      case None => Fail(BadNumber(ts[1]))
      case Some(v) => Emit(Pair(ts[0], v))
  }

  /** The line `TextOutputFormat` writes for a record: key, a tab, the value. */
  function Render(r: Pair<string, int>): string
  {
    r.key + "\t" + Format(r.value)
  }

  /** The lines of a whole output, one per record, in order. */
  function RenderAll(rs: seq<Pair<string, int>>): (lines: seq<string>)
    ensures |lines| == |rs|
  {
    seq(|rs|, i requires 0 <= i < |rs| => Render(rs[i]))
  }

  /** A record whose key is a single token and whose value is a `long` is read
      back unchanged from its line. */
  lemma MapRendered(r: Pair<string, int>)
    requires IsWord(r.key) && IsLong(r.value)
    ensures MapIntermediateLine(Render(r)) == Emit(r)
  {
    assert Join([r.key, Format(r.value)], '\t') == Render(r);
    TokensOfJoin([r.key, Format(r.value)], '\t');
    ParseFormat(r.value);
  }

  /** The map phase over all lines: the records in line order, or the failure of
      the first line whose `map` throws. */
  function MapIntermediateLines(lines: seq<string>): (r: Result<seq<Pair<string, int>>>)
    ensures r.Ok? <==> forall i :: 0 <= i < |lines| ==> !MapIntermediateLine(lines[i]).Fail?
    ensures r.Ok? ==> |r.value| <= |lines|
    ensures r.Ok? ==> forall i :: 0 <= i < |r.value| ==> IsLong(r.value[i].value)
  {
    if lines == [] then
      Ok([])
    else
      match MapIntermediateLine(lines[0])
      case Fail(f) => Err(f)
      case Skip => MapIntermediateLines(lines[1..])
      case Emit(e) =>
        match MapIntermediateLines(lines[1..])
        case Err(f) => Err(f)
        case Ok(rs) => Ok([e] + rs)
  }

  /** The second job reads back exactly the records the first job wrote, provided
      every key is a single token and every value a `long`. */
  lemma {:induction false} MapRenderedAll(rs: seq<Pair<string, int>>)
    requires forall i :: 0 <= i < |rs| ==> IsWord(rs[i].key) && IsLong(rs[i].value)
    ensures MapIntermediateLines(RenderAll(rs)) == Ok(rs)
  {
    if rs != [] {
      var lines := RenderAll(rs);
      assert lines[1..] == RenderAll(rs[1..]);
      assert rs == [rs[0]] + rs[1..];
      MapRenderedAll(rs[1..]);
      MapRendered(rs[0]);
      MapIntermediateLinesCons(lines, rs[0], rs[1..]);
    }
  }

  lemma MapIntermediateLinesCons(lines: seq<string>, r: Pair<string, int>, rs: seq<Pair<string, int>>)
    requires lines != [] && MapIntermediateLine(lines[0]) == Emit(r)
    requires MapIntermediateLines(lines[1..]) == Ok(rs)
    ensures MapIntermediateLines(lines) == Ok([r] + rs)
  {
  }
}
