# Triangle listing in two MapReduce jobs

This project models `TriangleOutputer`. It is a Hadoop program that lists every triangle of an undirected graph. It closes open triads in two jobs.

- **First job.**
  - `ParseLongLongPairsMapper` reads the edge list. It keeps a line's edge, as the record `(low, high)`, only when the first number is below the second. A high-first line is dropped, not swapped, and repeated lines are kept.
  - `CrossProductReducer` receives one vertex `p` and its higher neighbours. For every neighbour `h` it writes an "edge exists" record, key `"p,h"` with value `-1`. It then sorts the neighbours in a reused growable buffer. For every pair of sorted positions `i < j` it writes a candidate: key `"a,b"`, value `p`.
- **Second job.**
  - `ParseTextLongPairsMapper` reads that text back as `(key, value)` records.
  - `OutputTriangleReducer` receives one pair key `"q,r"` with all its values. If an "edge exists" record is among them, it writes `"q,r,p"` for every other value `p`.

The model has these parts:

- **Mappers.** Both are pure functions from a line to a `Skip`, an `Emit(record)` or a `Fail(failure)` outcome.
- **Reducers.** Both are classes. Their array buffers and `size` fields persist across `reduce` calls. Their methods carry loop invariants and are proved against specification functions.
- **Shuffle.** The shuffle between the phases is an in-process group-by-key.
- **Whole program.** `run` is the composition of both jobs. On any input, it fails exactly when the first mapper throws (`RunFailsOnlyInFirstJob`). The main theorem, `RunWritesTriangles`, is about the records `es` that the first mapper keeps, not about the graph the input lines describe. It says the following when those records have no duplicates and non-negative vertex numbers:
  - both jobs succeed;
  - every triangle `p < q < r` of the kept records is written exactly once, as `"q,r,p"`;
  - nothing else is written.

The modules are:

| module | models |
|---|---|
| Outcomes | what a `map` call does with a line, the two exceptions it can throw, and the result of a job |
| Decimal | `Long.toString` and `Long.parseLong` over ASCII digits with the 64-bit range check |
| Tokenizer | `StringTokenizer` with its default delimiters |
| Keys | the text keys `"a,b"` and the output lines `"q,r,p"`, with their injectivity |
| Sorting | `Arrays.sort(a, 0, n)` as an in-place insertion sort, with `SortSeq` as its reference |
| Growable | the 4096-slot buffers that double through `Arrays.copyOf` |
| Shuffle | group-by-key, records, groups and flat-map over groups |
| EdgeParsing | `ParseLongLongPairsMapper.map` and its map phase |
| CrossProduct | `CrossProductReducer` (class) and the specification of what one call writes |
| IntermediateParsing | `ParseTextLongPairsMapper.map`, its map phase, and the `key TAB value` text between the jobs |
| TriangleOutput | `OutputTriangleReducer` (class) and the specification of what one call writes |
| Jobs | the reduce phase of each job over the shuffle's groups |
| Pipeline | `run`: both jobs in sequence, the driver method, and the end-to-end theorem |

## Model

| member | source | states |
|---|---|---|
| Decimal.Format | TriangleOutputer.java:71 | `Long.toString`: non-empty, ends in a digit, made only of digits and a minus sign, which comes first exactly for negative numbers |
| Decimal.Parse | TriangleOutputer.java:30 | `Long.parseLong`: a value is produced only for text ending in a digit, and it lies in the 64-bit range |
| Decimal.ParseFormat | TriangleOutputer.java:103 | parsing what `Long.toString` wrote gives back the 64-bit number |
| Decimal.FormatValue | TriangleOutputer.java:71 | the sign and digits of `Long.toString(x)` determine `x` |
| Decimal.FormatInjective | TriangleOutputer.java:81 | distinct numbers have distinct decimal texts |
| Tokenizer.Tokens | TriangleOutputer.java:27 | every token is non-empty and holds no delimiter |
| Tokenizer.WordLength | TriangleOutputer.java:27 | a token runs exactly to the next delimiter or to the end of the line |
| Tokenizer.TokensOfJoin | TriangleOutputer.java:98-103 | tokenizing words joined by one delimiter gives back the words |
| Keys.JoinedInjective | TriangleOutputer.java:142 | `prefix + "," + Long.toString(x)` determines both the prefix and `x` |
| Keys.EdgeKeyInjective | TriangleOutputer.java:71 | the key `"a,b"` determines `a` and `b` |
| Keys.TriangleTextInjective | TriangleOutputer.java:142 | the line `"q,r,p"` determines all three vertices |
| Keys.EdgeKeyIsWord | TriangleOutputer.java:81 | a key `"a,b"` holds no whitespace, so the second mapper reads it as one token |
| Sorting.Insert | TriangleOutputer.java:76 | inserting into a sorted sequence keeps it sorted and adds exactly the new value |
| Sorting.SortSeq | TriangleOutputer.java:76 | the reference sort is ascending and a permutation of its input |
| Sorting.SortedUnique | TriangleOutputer.java:76 | there is only one ascending permutation, so any correct sort gives `SortSeq` |
| Sorting.SortDistinct | TriangleOutputer.java:76 | distinct neighbours sort into a strictly ascending sequence |
| Sorting.SortPrefix | TriangleOutputer.java:76 | `Arrays.sort(edges, 0, size)`: the first `size` slots become `SortSeq` of what they held, and the rest is untouched |
| Sorting.InsertLast | TriangleOutputer.java:76 | one insertion step extends the sorted prefix, keeps the multiset and leaves the slots beyond `n` alone |
| Growable.DoublesGrows | TriangleOutputer.java:64 | a buffer only ever grows from its initial 4096 slots |
| Growable.GrownCapacity | TriangleOutputer.java:63-65 | after `n` values the capacity holds them, is the start capacity doubled zero or more times, and is below `2n` if it grew |
| Growable.GrownCapacityStep | TriangleOutputer.java:63-65 | one more value doubles the capacity exactly when the buffer was full |
| Growable.CopyOf | TriangleOutputer.java:64 | `Arrays.copyOf`: a fresh array of the new length with the old values in front and zeros after |
| EdgeParsing.MapEdgeLine | TriangleOutputer.java:23-42 | no tokens: nothing; one token: throws; an unparsable first or second token throws a number-format failure naming it; when the first two tokens parse to `a` and `b`, the edge `(a, b)` is written if `a < b` and nothing otherwise, whatever follows |
| EdgeParsing.EdgeLineOfNumbers | TriangleOutputer.java:29-40 | two numbers followed by any tokens give the edge if the first is smaller and nothing otherwise; further tokens are ignored |
| EdgeParsing.LoneNumberFails | TriangleOutputer.java:31-32 | a line with one number throws "invalid edge line" with the line |
| EdgeParsing.MapEdgeLines | TriangleOutputer.java:23-42 | the map phase succeeds exactly when no line throws, and then writes only canonical edges, at most one per line |
| EdgeParsing.MapEdgeLinesOfEdges | TriangleOutputer.java:23-42 | an edge list written one `"a b"` line per canonical edge is read back as the same edges |
| CrossProduct.TaggedInjective | TriangleOutputer.java:81-82 | two candidates of one vertex are equal only for the same pair |
| CrossProduct.CandidateCount | TriangleOutputer.java:79-84 | `n` neighbours give `n(n-1)/2` candidates |
| CrossProduct.CandidateAt | TriangleOutputer.java:79-84 | the candidate at `PairIndex(n, i, j)` is the one for sorted positions `i, j` |
| CrossProduct.PairIndexOrdered | TriangleOutputer.java:79-84 | candidates are written in lexicographic order of `(i, j)` |
| CrossProduct.CandidateFrom | TriangleOutputer.java:79-84 | every candidate comes from two sorted positions `i < j` |
| CrossProduct.RowCount | TriangleOutputer.java:80-83 | one pass of the inner loop writes the candidate `(q, r)` once if it starts at `q` and `r` follows, and never otherwise |
| CrossProduct.CandidatesCount | TriangleOutputer.java:79-84 | over strictly ascending neighbours each pair `q < r` of them is a candidate exactly once, and no other pair is |
| CrossProduct.CrossProductLength | TriangleOutputer.java:62-84 | a call with `n` values writes `n` "edge exists" records and `n(n-1)/2` candidates |
| CrossProduct.CrossProductMarkersFirst | TriangleOutputer.java:70-73 | the first `n` records are the "edge exists" records `("key,h", -1)`, one per value in input order |
| CrossProduct.CrossProductTagged | TriangleOutputer.java:81-82 | every record after them is a candidate whose value is the group key |
| CrossProduct.CrossProductPairAt | TriangleOutputer.java:76-84 | the candidate of sorted positions `i < j` sits at `n + PairIndex(n, i, j)` and names its smaller endpoint first |
| CrossProduct.CrossProductReducer.constructor | TriangleOutputer.java:51-52 | a new reducer has a 4096-slot buffer and `size` 0 |
| CrossProduct.CrossProductReducer.Reduce | TriangleOutputer.java:54-85 | the call writes `CrossProduct(key, values)`; it leaves `size == n`, the buffer holding the sorted values, and the capacity grown by doubling |
| CrossProduct.CrossProductReducer.ReduceAll | TriangleOutputer.java:46-86 | one reducer object over all groups in turn writes the concatenation of what each call writes |
| CrossProduct.CrossProductReducer.Fill | TriangleOutputer.java:62-74 | the fill loop leaves `edges[0..size)` equal to the values in order, and writes their "edge exists" records |
| CrossProduct.CrossProductReducer.Append | TriangleOutputer.java:63-68 | the buffer doubles exactly when full, then the value goes into slot `size` |
| CrossProduct.CrossProductReducer.EmitCandidates | TriangleOutputer.java:79-84 | the nested loops write `Candidates` of the sorted buffer |
| CrossProduct.CrossProductReducer.EmitRow | TriangleOutputer.java:80-83 | the inner loop writes position `i` paired with each later position |
| IntermediateParsing.MapIntermediateLine | TriangleOutputer.java:94-106 | a record is emitted exactly when there are two tokens and the second parses; it is `(first token, value)`; nothing is written exactly for a blank line |
| IntermediateParsing.MapRendered | TriangleOutputer.java:99-104 | the line `key TAB Long.toString(v)` of a one-token key is read back as `(key, v)` |
| IntermediateParsing.MapIntermediateLines | TriangleOutputer.java:94-106 | the map phase succeeds exactly when no line throws, and every value it writes is a `long` |
| IntermediateParsing.MapRenderedAll | TriangleOutputer.java:94-106 | the second job's map phase reads back exactly the records the first job wrote |
| TriangleOutput.NonMarkers | TriangleOutputer.java:132-137 | the stored values hold no `-1` and are no more than the values |
| TriangleOutput.NonMarkersCount | TriangleOutputer.java:132-137 | every value other than `-1` is stored as often as it occurs |
| TriangleOutput.NonMarkersAppend | TriangleOutputer.java:128-138 | storing two runs of values stores each run in turn |
| TriangleOutput.NonMarkersSkipMarker | TriangleOutputer.java:133 | a `-1` is never stored, wherever it occurs |
| TriangleOutput.ExtraMarker | TriangleOutputer.java:133-140 | once one `-1` is present, a further `-1` anywhere does not change the output |
| TriangleOutput.ClosingsCount | TriangleOutputer.java:141-144 | the line `key,p` is written as often as `p` is stored |
| TriangleOutput.CloseTrianglesCount | TriangleOutputer.java:140-146 | a call writes `key,v` once per occurrence of `v` if a `-1` is among the values, and never otherwise |
| TriangleOutput.CloseTrianglesFrom | TriangleOutputer.java:140-146 | a call writes something only if a `-1` is present, and every line is `key,v` for a non-marker value `v` |
| TriangleOutput.CloseTrianglesOrderFree | TriangleOutputer.java:119-148 | the output, as a multiset, depends only on the multiset of values |
| TriangleOutput.OutputTriangleReducer.constructor | TriangleOutputer.java:115-116 | a new reducer has a 4096-slot buffer and `size` 0 |
| TriangleOutput.OutputTriangleReducer.Reduce | TriangleOutputer.java:119-148 | the call writes `CloseTriangles(key, values)`; a non-empty call leaves the non-marker values in `vArray[0..size)`; an empty call leaves `size`, the buffer and its contents as they were |
| TriangleOutput.OutputTriangleReducer.ReduceAll | TriangleOutputer.java:110-149 | one reducer object over all groups in turn writes the concatenation of what each call writes |
| TriangleOutput.OutputTriangleReducer.Collect | TriangleOutputer.java:126-139 | the scan sets the flag exactly when a `-1` is present and stores every other value in order, doubling a full buffer |
| TriangleOutput.OutputTriangleReducer.Grow | TriangleOutputer.java:129-131 | a full buffer is replaced by a fresh one of twice the length holding the same values |
| TriangleOutput.OutputTriangleReducer.Store | TriangleOutputer.java:136 | `vArray[size++] = e` appends `e` to the stored values |
| TriangleOutput.OutputTriangleReducer.EmitClosed | TriangleOutputer.java:140-146 | the output loop writes `key,p` for each stored value in order |
| Shuffle.KeysOf | TriangleOutputer.java:164-165 | the reduce keys are distinct, and they are exactly the keys the map phase wrote |
| Shuffle.GroupByKey | TriangleOutputer.java:164-165 | one group per distinct key, holding every value written with that key, in order |
| Shuffle.GroupByKeyPartitions | TriangleOutputer.java:164-165 | the groups together hold exactly the records of the map phase, each once |
| Shuffle.RegroupMultiset | TriangleOutputer.java:184-185 | a reduce phase that handles its groups record by record writes, as a multiset, what handling the records directly writes |
| Jobs.ClosingsOfRecords | TriangleOutputer.java:126-146 | a group's output is its records' lines taken one at a time |
| Jobs.Stage2PerRecord | TriangleOutputer.java:174-191 | the second job's output, as a multiset, is what its records give one by one |
| Jobs.Stage2Count | TriangleOutputer.java:174-191 | the second job writes `k,v` once per record `(k, v)` if `k` has a `-1` record, and never otherwise |
| Jobs.Stage2From | TriangleOutputer.java:174-191 | every line of the second job comes from a non-marker record whose key has a `-1` record |
| Jobs.MarkerPresent | TriangleOutputer.java:70-73 | every edge gets its "edge exists" record |
| Jobs.MarkerOrigin | TriangleOutputer.java:70-73 | every "edge exists" record names an input edge |
| Jobs.CandidateOrigin | TriangleOutputer.java:76-84 | every candidate of vertex `p` pairs two neighbours `q < r` of `p` |
| Jobs.Stage1Group | TriangleOutputer.java:154-171 | every record of the first job was written by the group of some vertex of the input |
| Jobs.Stage1Origin | TriangleOutputer.java:154-171 | every record of the first job is an edge's marker or a candidate `(q, r)` of a vertex `p` with edges to both |
| Jobs.OnlyOwnGroup | TriangleOutputer.java:81-82 | only the group of `p` writes candidates tagged with `p` |
| Jobs.OtherGroupsSilent | TriangleOutputer.java:81-82 | no other group writes a given candidate |
| Jobs.GroupCandidateCount | TriangleOutputer.java:76-84 | the group of `p` writes the candidate `(q, r)` once if `(p, q)` and `(p, r)` are edges, and never otherwise |
| Jobs.Stage1CandidateCount | TriangleOutputer.java:154-171 | the first job writes the candidate `(q, r)` tagged with `p` once if `(p, q)` and `(p, r)` are edges, and never otherwise |
| Pipeline.Stage1Readable | TriangleOutputer.java:167-190 | for any records the first mapper can keep, every record of the first job has a one-token key and a `long` value, so the second job can read it |
| Pipeline.RunFailsOnlyInFirstJob | TriangleOutputer.java:152-197 | on every input, `run` succeeds exactly when the first job's map phase does, and then its output is the second job over the first job's records |
| Pipeline.TriangleOfRecords | TriangleOutputer.java:140-143 | a candidate, its vertex's two edges and the matching edge marker make a triangle whose line is the one written |
| Pipeline.OutputIsTriangle | TriangleOutputer.java:152-197 | every written line is `"q,r,p"` for a triangle `p < q < r` |
| Pipeline.TriangleWrittenOnce | TriangleOutputer.java:152-197 | every triangle's line is written exactly once |
| Pipeline.RunWritesTriangles | TriangleOutputer.java:152-197 | when the kept edge records are duplicate-free with non-negative vertices, `run` succeeds and writes each triangle of those records exactly once and nothing else |
| Pipeline.RunJob | TriangleOutputer.java:194-196 | the driver runs the second job only after the first succeeds, and its result is `Run(lines)` |
| Pipeline.ReduceCrossProduct | TriangleOutputer.java:164-165 | one `CrossProductReducer` over the shuffle's groups writes `Stage1` |
| Pipeline.ReduceTriangles | TriangleOutputer.java:184-185 | one `OutputTriangleReducer` over the shuffle's groups writes `Stage2` |

## Left out

- `main` and `ToolRunner` are not modelled. Neither are the `Job` configuration, the input and output paths and the `temp1` directory. `run` is the composition of the two jobs. The exit code is success or failure.
- The first job's output is modelled as text: one `key TAB value` line per record, read back by the second mapper. The job's final output is the sequence of lines. File splitting and the input byte offsets given to `map` are not modelled.
- The shuffle keeps keys in order of first appearance, not Hadoop's sorted key order. Every claim about whole jobs is therefore stated as a multiset, so it holds whatever order the keys come in.
- Partitioning, parallel and distributed execution, and re-execution after a failure are not modelled.
- Writable objects are reused in the source (`mKey`, `mValue`, `rKey`). Each `set` followed by `write` is modelled as appending a fresh value.
- Fields and locals that are never read are not modelled: `count`, `zero` and the locals `c` and `n` of `OutputTriangleReducer`, and `one` of `CrossProductReducer`.
- `Long.parseLong` is modelled over ASCII digits only. The non-ASCII Unicode digits it also accepts are not modelled. A failed parse is one `BadNumber` failure, without the exception's message.
- `Sorting.SortPrefix`: `Arrays.sort`'s dual-pivot quicksort is replaced by an insertion sort with the same contract. That contract is the sorted permutation of the first `size` slots, with the rest untouched.
- The outer `while` of `OutputTriangleReducer.reduce` is modelled as a single pass. Its body runs at most once, because the inner loop drains the iterator.
- Java `int` overflow of `size` and of array lengths is not modelled. Integers are unbounded, so a group of more than 2^31 - 1 values is not handled as the JVM would handle it.
- The end-to-end theorem `Pipeline.RunWritesTriangles` speaks of the triangles of the edge records the first mapper keeps. An edge given only high-first, such as `3 1`, is dropped by the mapper, so its triangles are not written. The theorem needs two conditions on those records:
  - **No duplicate edge records.** Repeated identical edges repeat their records and can repeat a triangle's line.
  - **Non-negative vertex numbers.** A vertex `-1` is indistinguishable from the `-1` marker. For example, the edges `(-2,0)`, `(-2,1)`, `(-1,0)` and `(-1,1)` make the line `"0,1,-2"` although `(0,1)` is no edge.
- `TriangleOutput.OutputTriangleReducer.Reduce` and `Collect` state the buffer capacity only as "doubled from where it was and below twice the stored count when it grew". Unlike the first reducer's `GrownCapacity`, they do not give an exact formula, because markers take no slot but still trigger the full-buffer check.
