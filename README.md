# Dimension-2 instance generation and reading

This project models the data-preparation part of a repository that counts
the linear extensions of partial orders. The modelled code lives in
`src/data_preparation.py` and has two halves.

- **Generation** (`generate_data`). Two different permutations `p1` and
  `p2` of `0..n-1` are turned into rank tables `inverse1` and `inverse2`.
  The comment above them calls them each number's position in its
  permutation, but the code maps `i` to `p[i]`, which is the permutation
  itself and not its inverse. The model follows the code
  (`RankTable(p)[i] == p[i]`). Either reading yields an intersection of two
  linear orders, so the dimension-2 properties hold either way.
  Nested loops then list every pair `(u, v)` that is ranked lower in both
  tables. That relation is the intersection of two linear orders, so it is
  a partial order of dimension at most 2. The list is written to an
  instance file:
  - a header line `n m`, where `m` is the number of pairs;
  - one line `u+1 v+1` per pair, in list order.
- **Reading** (`create_graph`). The instance file is read back into a
  directed graph:
  - the first field of the header gives `n`;
  - nodes `1..n` are added;
  - every further line is stripped, split on a single space into exactly
    two fields, converted with `int()` and added as an edge;
  - any malformed line raises `ValueError`.

The model has five modules:

- `PyText` (`py_text.dfy`) holds the pieces of Python text handling the
  format relies on, each with its defining property proved:
  - `str(i)` for integers;
  - `int(s)`: an optional sign and decimal digits, with whitespace skipped
    around them. The skipped whitespace is tab, line feed, vertical tab,
    form feed, carriage return, space and the non-ASCII `str.isspace`
    characters. The ASCII separators U+001C..U+001F are not skipped;
  - `s.strip()`, which removes every `str.isspace` character, those four
    separators included;
  - `s.split(" ")`, where every single space cuts, so empty fields can
    appear.
- `DimensionTwo` (`dimension_two.dfy`):
  - permutations and the rank tables;
  - the nested construction loop, as a method proved against the
    predicate `OrderList`;
  - lemmas showing the listed relation is a strict partial order (in
    particular transitively closed);
  - lemmas showing it is the intersection of the two rank orders, that the
    list is uniquely determined, that its length is the number of related
    pairs, and that two different permutations always leave an
    incomparable pair.
- `InstanceFormat` (`instance_format.dfy`):
  - the file writer, as a loop method proved against the function
    `InstanceLines`;
  - the reader, as a pure specification `ParseInstance`: nodes and edges,
    or `ValueError` at a given line;
  - the round trip between the two;
  - the reader's error behaviour.
- `DiGraphs` (`digraph.dfy`):
  - the part of `networkx.DiGraph` that is used, as a class with mutable
    node and edge sets;
  - `create_graph` as a method that mutates such a graph, proved to agree
    with `ParseInstance` on success and on failure.
- `DataPreparation` (`data_preparation.dfy`):
  - one instance of `generate_data` from given permutations to file lines;
  - the end-to-end statements about reading such a file back.

A file is modelled as the sequence of its lines without terminators. The
writer ends every line with a newline, so reading back line by line yields
exactly the written lines. Terminators make no difference to the reader:
- the header's first field goes through `int()`, which ignores surrounding
  whitespace;
- every other line goes through `strip()` first.

An empty file behaves like an empty header line: `readline()` returns `""`
and `int("")` fails.

## Model

| member | source | states |
|---|---|---|
| PyText.Strip | src/data_preparation.py:80 | none; characterised by StripLeftSpec and StripRightSpec with the `str.isspace` set |
| PyText.IntStrip | src/data_preparation.py:81 | none; the trimming `int()` does, characterised by StripLeftSpec and StripRightSpec with the `int()` whitespace set |
| PyText.StripLeftSpec | src/data_preparation.py:80 | leading strip for a given whitespace set: the result is a suffix, every dropped character is whitespace, and the result does not start with whitespace |
| PyText.StripRightSpec | src/data_preparation.py:80 | trailing strip for a given whitespace set: the result is a prefix, every dropped character is whitespace, and the result does not end with whitespace |
| PyText.StripTrimmed | src/data_preparation.py:80 | stripping leaves a string unchanged when it neither starts nor ends with whitespace |
| PyText.Split | src/data_preparation.py:80 | `split(" ")` returns at least one field; joining the fields with the separator gives back the input; no field contains the separator |
| PyText.SplitJoin | src/data_preparation.py:72 | splitting a join of separator-free fields returns exactly those fields |
| PyText.NatToDecimal | src/data_preparation.py:40 | the decimal text of a natural number is non-empty, consists of digits only, and starts with `0` only for 0 itself |
| PyText.IntToString | src/data_preparation.py:44 | none; `str()` of an integer, characterised by IntToStringNoSpace and IntRoundTrip |
| PyText.DecimalRoundTrip | src/data_preparation.py:81 | the value of the decimal digits of n is n |
| PyText.IntToStringNoSpace | src/data_preparation.py:44 | `str(i)` of an integer contains no whitespace |
| PyText.IntRoundTrip | src/data_preparation.py:81 | `int(str(x)) == x` for every integer x, negative ones included |
| PyText.ParseInt | src/data_preparation.py:81 | none; `int()` on a string, characterised by IntRoundTrip, ParseIntBlank and ParseIntKeepsSeparators |
| PyText.ParseIntBlank | src/data_preparation.py:72 | `int()` rejects the empty string and strings made only of `str.isspace` characters |
| PyText.ParseIntKeepsSeparators | src/data_preparation.py:81 | `int()` rejects a literal padded with one of U+001C..U+001F, although `strip()` removes that separator |
| DimensionTwo.Elements | src/data_preparation.py:27 | holds exactly the elements 0..n-1 that the rank tables are keyed by |
| DimensionTwo.RankTable | src/data_preparation.py:27-28 | none; the dictionary `{i: p[i]}`, characterised by RankTableIsBijection |
| DimensionTwo.RankTableIsBijection | src/data_preparation.py:27-28 | the rank table of a permutation has keys 0..n-1 and values 0..n-1, and distinct keys have distinct ranks |
| DimensionTwo.BuildPartialOrder | src/data_preparation.py:31-35 | the nested loops list each pair in range ranked lower in both tables, list every such pair, and list them in strictly increasing lexicographic order |
| DimensionTwo.PrecedesIsIntersection | src/data_preparation.py:34 | the relation is the intersection of the two linear orders given by the rank tables, and each of those orders is total on 0..n-1 |
| DimensionTwo.RankedBelowIsLinearOrder | src/data_preparation.py:34 | the order one rank table induces is irreflexive, transitive and total on 0..n-1 |
| DimensionTwo.OrderListIsStrictPartialOrder | src/data_preparation.py:31-35 | the listed pairs are irreflexive, asymmetric and transitive, and no pair is listed twice |
| DimensionTwo.OrderListMembership | src/data_preparation.py:34-35 | a pair in range is listed if and only if u has the lower rank in both tables |
| DimensionTwo.OrderListUnique | src/data_preparation.py:31-35 | two lists that both meet the construction's specification are equal, so that specification fixes the loop's result |
| DimensionTwo.OrderListCount | src/data_preparation.py:40 | the count m written in the header equals the number of related pairs |
| DimensionTwo.DistinctPermutationsLeaveIncomparablePair | src/data_preparation.py:23-25 | different permutations require n >= 2 and leave two distinct elements that are related in neither direction, so the order is not a chain |
| DimensionTwo.FindInversion | src/data_preparation.py:23-25 | different permutations of 0..n-1 have an inversion: u before v in p1 and v before u in p2 |
| DimensionTwo.SmallSizesHaveOnePermutation | src/data_preparation.py:24-25 | for n <= 1 any two permutations are equal, so the retry condition holds for every draw |
| InstanceFormat.HeaderLine | src/data_preparation.py:40 | none; the text `n m`, characterised by HeaderReadsBack |
| InstanceFormat.EdgeLine | src/data_preparation.py:44 | none; the text `u+1 v+1`, characterised by EdgeLineReadsBack |
| InstanceFormat.InstanceLines | src/data_preparation.py:40-44 | none; the whole file, characterised by InstanceLinesFormat and RoundTrip |
| InstanceFormat.WriteInstance | src/data_preparation.py:40-44 | the write loop produces the header line followed by one line per pair, in list order |
| InstanceFormat.InstanceLinesFormat | src/data_preparation.py:40-44 | the written file has m+1 lines; the header splits into two fields that read back as n and m; line k+1 reads back as the k-th pair shifted to 1-based numbering |
| InstanceFormat.HeaderReadsBack | src/data_preparation.py:40 | the header `n m` splits into exactly two fields that `int()` reads back as n and m |
| InstanceFormat.EdgeLineReadsBack | src/data_preparation.py:44 | a written pair line reads back through strip, split and `int()` as (u+1, v+1) |
| InstanceFormat.HeaderSize | src/data_preparation.py:72 | none; `int()` of the header's first field, characterised by HeaderReadsBack, ParseIgnoresRestOfHeader and SeparatorPaddedFieldsFail |
| InstanceFormat.ParseEdgeLine | src/data_preparation.py:80-81 | none; strip, split into exactly two fields and `int()` of each, characterised by EdgeLineReadsBack and SeparatorPaddedFieldsFail |
| InstanceFormat.CollectEdges | src/data_preparation.py:79-82 | none; the edges of the body lines in order, characterised by CollectStep, CollectStopsAt and CollectShifted |
| InstanceFormat.NodeRange | src/data_preparation.py:75-76 | the nodes added are exactly 1..n, none when n <= 0 |
| InstanceFormat.Endpoints | src/data_preparation.py:82 | the nodes that adding edges inserts are exactly the edges' endpoints |
| InstanceFormat.ParseInstance | src/data_preparation.py:68-84 | whatever the reader returns is a graph whose every edge joins two of its nodes |
| InstanceFormat.RoundTrip | src/data_preparation.py:72-82 | reading a written file gives the nodes 1..n plus the endpoints of the shifted pairs, and exactly the shifted pairs as edges; when every pair is in range, the nodes are exactly 1..n |
| InstanceFormat.ShiftedMember | src/data_preparation.py:44 | (a, b) is a shifted pair exactly when (a-1, b-1) is listed |
| InstanceFormat.CollectShifted | src/data_preparation.py:79-82 | body lines that each read as a shifted pair give exactly the set of shifted pairs as edges |
| InstanceFormat.ParseIgnoresRestOfHeader | src/data_preparation.py:72 | only the header's first field matters: two files whose headers share a first field without spaces, and that differ only after that field's space, read identically |
| InstanceFormat.SeparatorPaddedFieldsFail | src/data_preparation.py:72-81 | a header field padded with one of U+001C..U+001F makes the read fail at line 0, and a body line with such a field does not read as an edge |
| InstanceFormat.CollectStopsAt | src/data_preparation.py:79-81 | the first body line that does not read as two integers makes the read fail with ValueError at that line, whatever follows |
| InstanceFormat.CollectStep | src/data_preparation.py:79-82 | one more line that reads as an edge adds exactly that edge |
| InstanceFormat.EndpointsAdd | src/data_preparation.py:82 | adding an edge adds exactly its two endpoints to the node set |
| InstanceFormat.EmptyFileFails | src/data_preparation.py:72 | an empty file is rejected with ValueError at the header |
| DiGraphs.DiGraph.constructor | src/data_preparation.py:69 | a new graph has no nodes and no edges |
| DiGraphs.DiGraph.AddNode | src/data_preparation.py:76 | adds the node and leaves the edges unchanged; adding an existing node changes nothing |
| DiGraphs.DiGraph.AddEdge | src/data_preparation.py:82 | adds the edge and any missing endpoints, and keeps every edge between nodes of the graph |
| DiGraphs.CreateGraph | src/data_preparation.py:62-84 | on success, the returned graph is fresh, well formed and equal to ParseInstance's graph; on failure, ParseInstance fails with the same ValueError line |
| DiGraphs.AddEdgeLines | src/data_preparation.py:79-82 | the edge loop adds exactly the edges the body lines describe and their endpoints, or reports the first unreadable line |
| DataPreparation.GenerateInstance | src/data_preparation.py:27-44 | from two different permutations, builds the list meeting the construction's specification for their rank tables, then the file lines for that list |
| DataPreparation.GeneratedFileReadsBack | src/data_preparation.py:27-44 | reading a generated file succeeds with nodes 1..n and an edge a -> b exactly when elements a-1 and b-1 are ranked in that order by both permutations |
| DataPreparation.ShiftedOrder | src/data_preparation.py:34-44 | the 1-based pairs written to the file are exactly those ranked in the same direction by both permutations |
| DataPreparation.GeneratedGraphIsNotChain | src/data_preparation.py:23-24 | the graph read back from a generated file has two distinct nodes with no edge in either direction |
| DataPreparation.IncomparableNodes | src/data_preparation.py:23 | a graph whose edges are the pairs two different permutations rank in the same direction has two nodes with no edge in either direction |

## Left out

- The random source (lines 16 and 21-25): the seed and the numpy draws are
  not modelled. The two permutations are parameters. The `while` retry
  loop is represented only by its exit condition: `GenerateInstance`
  requires `p1 != p2`.
- Set sizes below 2: for `n <= 1` the retry loop never exits, because every
  draw equals `p1` (`SmallSizesHaveOnePermutation`). The model only
  describes runs that leave the loop.
- The outer loops over `set_sizes` and `n_sets` (lines 18-19): they repeat
  one instance independently, and the model covers one instance.
- File system access (lines 38, 45 and 68): opening, naming, writing and
  closing files, and I/O errors, are left out. A file is its sequence of
  lines. Text-mode newline translation (`\r\n`, `\r`) is not modelled.
- `generate_with_antichain` (lines 48-59) only seeds the random generator
  and produces nothing, so it has no model.
- `src/algorithms.py` and `src/evaluation.py` are not part of this model.
- `networkx.DiGraph` is modelled only by its node set and its edge set.
  Node and edge insertion order, attribute dictionaries and adjacency views
  are not modelled.
- PyText.ParseInt: does not accept underscores between digits or
  non-ASCII decimal digits, which Python's `int()` does. The writer never
  produces them.
- PyText.ParseInt: has no limit on the number of digits. Since Python 3.11
  (and its security backports), `int()` on a decimal string of more than
  4300 digits raises ValueError by default. The limit is configurable and
  depends on the interpreter version.
- PyText.IntRoundTrip: holds for every integer. Under the same default limit,
  `str()` itself raises for an integer of more than 4300 digits. The sizes
  written here are far below it.
- The permutation entries are numpy integers and are modelled as unbounded
  integers. They are only compared (line 34). The `+1` at line 44 applies
  to `u` and `v`, which are Python integers from `range(n)`.
