/**
 * The text format of an instance file and what `create_graph` reads from it.
 * A file is a sequence of lines without their terminators: the writer ends
 * every line with a newline, so reading the file back line by line yields
 * exactly the lines written.  The first line is `n m`; each further line is
 * `u v` and stands for the comparison u < v between elements numbered 1..n.
 */
module InstanceFormat {
  import opened PyText

  /** Every failure of the reader is Python's ValueError; `line` is the index
      of the file line that raised it (0 is the header). */
  datatype ParseError = ValueError(line: nat)

  datatype Result<T> = Success(value: T) | Failure(error: ParseError)

  /** A directed graph as a value: its node set and its edge set. */
  datatype Graph = Graph(nodes: set<int>, edges: set<(int, int)>)

  /** Every edge joins two nodes of the graph. */
  predicate WellFormed(g: Graph) {
    forall e :: e in g.edges ==> e.0 in g.nodes && e.1 in g.nodes
  }

  // ------------------------------------------------------------- writing

  /** The first line, `f'{n} {m}'`. */
  function HeaderLine(n: int, m: int): string {
    IntToString(n) + " " + IntToString(m)
  }

  /** The line for the pair (u, v), `f'{u+1} {v+1}'`: elements are written
      numbered from 1. */
  function EdgeLine(pair: (int, int)): string {
    IntToString(pair.0 + 1) + " " + IntToString(pair.1 + 1)
  }

  /** The whole file for a set size `n` and the list of ordered pairs: the
      header, then one line per pair in list order. */
  function InstanceLines(n: nat, order: seq<(int, int)>): seq<string> {
    seq(|order| + 1, i requires 0 <= i <= |order| =>
      if i == 0 then HeaderLine(n, |order|) else EdgeLine(order[i - 1]))
  }

  /** The loop that writes the header and then one line per pair. */
  method WriteInstance(n: nat, partialOrder: seq<(int, int)>) returns (lines: seq<string>)
    ensures lines == InstanceLines(n, partialOrder)
  {
    lines := [HeaderLine(n, |partialOrder|)];
    var k := 0;
    while k < |partialOrder|
      invariant 0 <= k <= |partialOrder|
      invariant |lines| == k + 1 && lines[0] == HeaderLine(n, |partialOrder|)
      invariant forall j :: 0 <= j < k ==> lines[j + 1] == EdgeLine(partialOrder[j])
    {
      var line := EdgeLine(partialOrder[k]);
      AppendLine(lines, line);
      lines := lines + [line];
      k := k + 1;
    }
    InstanceLinesCharacterized(n, partialOrder, lines);
  }

  lemma AppendLine(lines: seq<string>, line: string)
    ensures |lines + [line]| == |lines| + 1 && (lines + [line])[|lines|] == line
    ensures forall j :: 0 <= j < |lines| ==> (lines + [line])[j] == lines[j]
  {
  }

  lemma InstanceLinesCharacterized(n: nat, order: seq<(int, int)>, lines: seq<string>)
    requires |lines| == |order| + 1 && lines[0] == HeaderLine(n, |order|)
    requires forall j :: 0 <= j < |order| ==> lines[j + 1] == EdgeLine(order[j])
    ensures lines == InstanceLines(n, order)
  {
  }

  // ------------------------------------------------------------- reading

  /** `int(line.split(" ")[0])`: the set size is the header's first field;
      whatever follows the first space, the count m included, is ignored. */
  function HeaderSize(line: string): Option<int> {
    ParseInt(Split(line, ' ')[0])
  }

  /** `u, v = line.strip().split(" ")` followed by `int(u), int(v)`: exactly
      two fields, each an integer literal. */
  function ParseEdgeLine(line: string): Option<(int, int)> {
    var fields := Split(Strip(line), ' ');
    if |fields| != 2 then None
    else
      match (ParseInt(fields[0]), ParseInt(fields[1]))
      case (Some(u), Some(v)) => Some((u, v))
      case _ => None
  }

  /** Each line after the header, read as an edge on its own. */
  function LineResults(body: seq<string>): seq<Option<(int, int)>> {
    seq(|body|, j requires 0 <= j < |body| => ParseEdgeLine(body[j]))
  }

  /** The edges of the lines after the header, in file order: the first line
      that does not read stops everything with a ValueError at that line. */
  function CollectEdges(results: seq<Option<(int, int)>>): Result<set<(int, int)>> {
    if results == [] then Success({})
    else
      match CollectEdges(results[..|results| - 1])
      case Failure(e) => Failure(e)
      case Success(edges) =>
        match results[|results| - 1]
        case None => Failure(ValueError(|results|))
        case Some(e) => Success(edges + {e})
  }

  /** The nodes 1..n that `for i in range(n): g.add_node(i+1)` adds; none
      when n <= 0. */
  function NodeRange(n: int): (nodes: set<int>)
    ensures forall i :: i in nodes <==> 1 <= i <= n
    decreases if n < 0 then 0 else n
  {
    if n <= 0 then {} else NodeRange(n - 1) + {n}
  }

  /** The nodes that adding the edges inserts. */
  function Endpoints(edges: set<(int, int)>): (nodes: set<int>)
    ensures forall e :: e in edges ==> e.0 in nodes && e.1 in nodes
    ensures forall x :: x in nodes ==> exists e :: e in edges && (x == e.0 || x == e.1)
  {
    (set e | e in edges :: e.0) + (set e | e in edges :: e.1)
  }

  /** The lines after the header. */
  function Body(lines: seq<string>): seq<string> {
    if lines == [] then [] else lines[1..]
  }

  /** The graph `create_graph` builds from a file, or the ValueError it
      raises.  An empty file reads as an empty header line. */
  function ParseInstance(lines: seq<string>): (r: Result<Graph>)
    ensures r.Success? ==> WellFormed(r.value)
  {
    match HeaderSize(if lines == [] then "" else lines[0])
    case None => Failure(ValueError(0))
    case Some(n) =>
      match CollectEdges(LineResults(Body(lines)))
      case Failure(e) => Failure(e)
      case Success(edges) => Success(Graph(NodeRange(n) + Endpoints(edges), edges))
  }

  // ---------------------------------------------------------- properties

  /** The written file has the documented shape: a header whose two fields
      read back as n and the number of pairs m, and m further lines, the k-th
      reading back as the k-th pair shifted to 1-based numbering. */
  lemma InstanceLinesFormat(n: nat, order: seq<(int, int)>)
    ensures |InstanceLines(n, order)| == |order| + 1
    ensures |Split(InstanceLines(n, order)[0], ' ')| == 2
    ensures ParseInt(Split(InstanceLines(n, order)[0], ' ')[0]) == Some(n)
    ensures ParseInt(Split(InstanceLines(n, order)[0], ' ')[1]) == Some(|order|)
    ensures forall k :: 0 <= k < |order| ==>
      ParseEdgeLine(InstanceLines(n, order)[k + 1]) == Some((order[k].0 + 1, order[k].1 + 1))
  {
    var lines := InstanceLines(n, order);
    assert lines[0] == HeaderLine(n, |order|);
    HeaderReadsBack(n, |order|);
    forall k | 0 <= k < |order|
      ensures ParseEdgeLine(lines[k + 1]) == Some((order[k].0 + 1, order[k].1 + 1))
    {
      EdgeLineAt(n, order, k);
    }
  }

  lemma EdgeLineAt(n: nat, order: seq<(int, int)>, k: int)
    requires 0 <= k < |order|
    ensures ParseEdgeLine(InstanceLines(n, order)[k + 1]) == Some((order[k].0 + 1, order[k].1 + 1))
  {
    assert InstanceLines(n, order)[k + 1] == EdgeLine(order[k]);
    EdgeLineReadsBack(order[k]);
  }

  /** The header's two fields read back as n and m. */
  lemma HeaderReadsBack(n: int, m: int)
    ensures |Split(HeaderLine(n, m), ' ')| == 2
    ensures ParseInt(Split(HeaderLine(n, m), ' ')[0]) == Some(n)
    ensures ParseInt(Split(HeaderLine(n, m), ' ')[1]) == Some(m)
  {
    HeaderFields(n, m);
    IntRoundTrip(n);
    IntRoundTrip(m);
  }

  lemma HeaderFields(n: int, m: int)
    ensures Split(HeaderLine(n, m), ' ') == [IntToString(n), IntToString(m)]
  {
    IntToStringNoSpace(n);
    IntToStringNoSpace(m);
    SplitTwoFields(IntToString(n), IntToString(m));
  }

  lemma SplitTwoFields(a: string, b: string)
    requires NoSpace(a) && NoSpace(b)
    ensures Split(a + " " + b, ' ') == [a, b]
  {
    assert ' ' !in a && ' ' !in b by {
      assert IsSpace(' ');
    }
    assert Join([a, b], ' ') == a + " " + b;
    SplitJoin([a, b], ' ');
  }

  /** An edge line reads back as its pair shifted by one. */
  lemma EdgeLineReadsBack(pair: (int, int))
    ensures ParseEdgeLine(EdgeLine(pair)) == Some((pair.0 + 1, pair.1 + 1))
  {
    IntToStringNoSpace(pair.0 + 1);
    IntToStringNoSpace(pair.1 + 1);
    StripTwoFields(IntToString(pair.0 + 1), IntToString(pair.1 + 1));
    IntRoundTrip(pair.0 + 1);
    IntRoundTrip(pair.1 + 1);
  }

  /** Two non-empty whitespace-free fields joined by a space survive
      `strip()` and split back into the two fields. */
  lemma StripTwoFields(a: string, b: string)
    requires a != [] && b != [] && NoSpace(a) && NoSpace(b)
    ensures Split(Strip(a + " " + b), ' ') == [a, b]
  {
    var line := a + " " + b;
    assert line[0] == a[0] && line[|line| - 1] == b[|b| - 1];
    StripTrimmed(line, IsSpace);
    SplitTwoFields(a, b);
  }


  /** The pairs of a list, shifted to 1-based numbering. */
  function Shifted(order: seq<(int, int)>): set<(int, int)> {
    set k | 0 <= k < |order| :: (order[k].0 + 1, order[k].1 + 1)
  }

  /** A pair is among the shifted pairs exactly when the pair one below it is
      in the list. */
  lemma ShiftedMember(order: seq<(int, int)>, a: int, b: int)
    ensures (a, b) in Shifted(order) <==> (a - 1, b - 1) in order
  {
    if (a - 1, b - 1) in order {
      var k :| 0 <= k < |order| && order[k] == (a - 1, b - 1);
      assert (order[k].0 + 1, order[k].1 + 1) in Shifted(order);
    }
  }

  /** Lines that each read back as the shifted pair of a list give exactly
      the set of those pairs. */
  lemma {:induction false} CollectShifted(order: seq<(int, int)>, results: seq<Option<(int, int)>>)
    requires |results| == |order|
    requires forall j :: 0 <= j < |order| ==> results[j] == Some((order[j].0 + 1, order[j].1 + 1))
    ensures CollectEdges(results) == Success(Shifted(order))
    decreases |order|
  {
    if order != [] {
      var last := order[|order| - 1];
      CollectShifted(order[..|order| - 1], results[..|results| - 1]);
      ShiftedSnoc(order);
      assert results[|results| - 1] == Some((last.0 + 1, last.1 + 1));
    } else {
      assert Shifted(order) == {};
    }
  }

  lemma ShiftedSnoc(order: seq<(int, int)>)
    requires order != []
    ensures Shifted(order) == Shifted(order[..|order| - 1]) + {(order[|order| - 1].0 + 1, order[|order| - 1].1 + 1)}
  {
    var init, last := order[..|order| - 1], order[|order| - 1];
    forall x | x in Shifted(order) ensures x in Shifted(init) + {(last.0 + 1, last.1 + 1)} {
      var k :| 0 <= k < |order| && x == (order[k].0 + 1, order[k].1 + 1);
      if k < |init| { assert init[k] == order[k]; }
    }
    forall x | x in Shifted(init) ensures x in Shifted(order) {
      var k :| 0 <= k < |init| && x == (init[k].0 + 1, init[k].1 + 1);
      assert order[k] == init[k];
    }
  }

  /** Round trip: reading the file written for (n, order) gives the nodes
      1..n together with the endpoints of the shifted pairs, and exactly the
      shifted pairs as edges.  When every pair lies in 0..n-1, the node set
      is exactly 1..n. */
  lemma RoundTrip(n: nat, order: seq<(int, int)>)
    ensures ParseInstance(InstanceLines(n, order))
         == Success(Graph(NodeRange(n) + Endpoints(Shifted(order)), Shifted(order)))
    ensures (forall k :: 0 <= k < |order| ==> 0 <= order[k].0 < n && 0 <= order[k].1 < n) ==>
      ParseInstance(InstanceLines(n, order)) == Success(Graph(NodeRange(n), Shifted(order)))
  {
    var lines := InstanceLines(n, order);
    InstanceLinesFormat(n, order);
    var results := LineResults(Body(lines));
    forall j | 0 <= j < |order| ensures results[j] == Some((order[j].0 + 1, order[j].1 + 1)) {
      assert Body(lines)[j] == lines[j + 1];
    }
    CollectShifted(order, results);
    if forall k :: 0 <= k < |order| ==> 0 <= order[k].0 < n && 0 <= order[k].1 < n {
      ShiftedInRange(n, order);
    }
  }

  lemma ShiftedInRange(n: nat, order: seq<(int, int)>)
    requires forall k :: 0 <= k < |order| ==> 0 <= order[k].0 < n && 0 <= order[k].1 < n
    ensures NodeRange(n) + Endpoints(Shifted(order)) == NodeRange(n)
  {
    forall x | x in Endpoints(Shifted(order)) ensures x in NodeRange(n) {
      var e :| e in Shifted(order) && (x == e.0 || x == e.1);
      var k :| 0 <= k < |order| && e == (order[k].0 + 1, order[k].1 + 1);
    }
  }

  /** The count m in the header plays no part: two headers with the same
      first field give the same result whatever follows the first space. */
  lemma ParseIgnoresRestOfHeader(first: string, rest1: string, rest2: string, body: seq<string>)
    requires ' ' !in first
    ensures ParseInstance([first + " " + rest1] + body)
         == ParseInstance([first + " " + rest2] + body)
  {
    HeaderFirstField(first, rest1);
    HeaderFirstField(first, rest2);
    assert Body([first + " " + rest1] + body) == body;
    assert Body([first + " " + rest2] + body) == body;
  }

  /** A field padded with one of the separators U+001C..U+001F is refused,
      although `strip()` would remove such a separator: in the header the
      whole read fails at line 0, and a body line with such a field does not
      read as an edge. */
  lemma SeparatorPaddedFieldsFail(a: string, b: string, c: char, rest: string, body: seq<string>)
    requires a != [] && AllDigits(a) && b != [] && AllDigits(b)
    requires 0x1C <= c as int <= 0x1F
    ensures ParseInstance([[c] + a + " " + rest] + body) == Failure(ValueError(0))
    ensures ParseEdgeLine(a + [c] + " " + b) == None
  {
    ParseIntKeepsSeparators(a, c);
    assert ' ' !in [c] + a by {
      forall i | 0 <= i < |[c] + a| ensures ([c] + a)[i] != ' ' {
        if i > 0 { assert ([c] + a)[i] == a[i - 1]; }
      }
    }
    HeaderFirstField([c] + a, rest);
    var line := a + [c] + " " + b;
    assert line[0] == a[0] && line[|line| - 1] == b[|b| - 1];
    assert IsDigit(a[0]) && IsDigit(b[|b| - 1]);
    StripTrimmed(line, IsSpace);
    assert ' ' !in a + [c] by {
      forall i | 0 <= i < |a + [c]| ensures (a + [c])[i] != ' ' {
        if i < |a| { assert (a + [c])[i] == a[i]; }
      }
    }
    assert ' ' !in b by {
      forall i | 0 <= i < |b| ensures b[i] != ' ' {
        assert IsDigit(b[i]);
      }
    }
    assert Join([a + [c], b], ' ') == line;
    SplitJoin([a + [c], b], ' ');
  }

  lemma HeaderFirstField(a: string, rest: string)
    requires ' ' !in a
    ensures Split(a + " " + rest, ' ')[0] == a
  {
    assert a + " " + rest == a + [' '] + rest;
    SplitCut(a, ' ', rest);
  }

  /** The first line after the header that does not read makes the whole
      read fail with ValueError at that line, whatever follows it. */
  lemma {:induction false} CollectStopsAt(results: seq<Option<(int, int)>>, k: nat)
    requires k < |results|
    requires CollectEdges(results[..k]).Success?
    requires results[k] == None
    ensures CollectEdges(results) == Failure(ValueError(k + 1))
    decreases |results|
  {
    if k == |results| - 1 {
      assert results[..|results| - 1] == results[..k];
    } else {
      var init := results[..|results| - 1];
      assert init[..k] == results[..k] && init[k] == results[k];
      CollectStopsAt(init, k);
    }
  }

  /** One more line that reads as an edge adds that edge. */
  lemma CollectStep(results: seq<Option<(int, int)>>, k: nat, edges: set<(int, int)>)
    requires k < |results| && results[k].Some?
    requires CollectEdges(results[..k]) == Success(edges)
    ensures CollectEdges(results[..k + 1]) == Success(edges + {results[k].value})
  {
    assert results[..k + 1][..k] == results[..k];
  }

  lemma EndpointsAdd(edges: set<(int, int)>, e: (int, int))
    ensures Endpoints(edges + {e}) == Endpoints(edges) + {e.0, e.1}
  {
  }

  /** An empty file is refused at the header. */
  lemma EmptyFileFails()
    ensures ParseInstance([]) == Failure(ValueError(0))
  {
    ParseIntBlank(Split("", ' ')[0]);
  }
}
