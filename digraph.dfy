/**
 * `create_graph`: read an instance file into a directed graph by adding
 * nodes 1..n and then one edge per line.  The graph object keeps the two
 * collections a networkx DiGraph exposes here: its nodes and its edges.
 */
module DiGraphs {
  import opened PyText
  import opened InstanceFormat

  /** The part of networkx.DiGraph that `create_graph` uses. */
  class DiGraph {
    var nodes: set<int>
    var edges: set<(int, int)>

    /** Every edge joins two nodes of the graph. */
    ghost predicate Valid()
      reads this
    {
      WellFormed(View())
    }

    /** The graph as a value. */
    function View(): Graph
      reads this
    {
      Graph(nodes, edges)
    }

    /** `nx.DiGraph()`: no nodes and no edges. */
    constructor ()
      ensures nodes == {} && edges == {} && Valid()
    {
      nodes := {};
      edges := {};
    }

    /** `g.add_node(x)`: adding a node that is already there changes nothing. */
    method AddNode(x: int)
      requires Valid()
      modifies this
      ensures Valid()
      ensures nodes == old(nodes) + {x} && edges == old(edges)
    {
      nodes := nodes + {x};
    }

    /** `g.add_edge(u, v)`: adds the edge and whichever endpoints are missing. */
    method AddEdge(u: int, v: int)
      requires Valid()
      modifies this
      ensures Valid()
      ensures nodes == old(nodes) + {u, v} && edges == old(edges) + {(u, v)}
    {
      nodes := nodes + {u, v};
      edges := edges + {(u, v)};
    }
  }

  /** `create_graph` on the lines of a file: the graph it returns is the one
      ParseInstance describes, and it fails with ValueError exactly when
      ParseInstance does, at the same line. */
  method CreateGraph(lines: seq<string>) returns (r: Result<DiGraph>)
    ensures r.Failure? ==> ParseInstance(lines) == Failure(r.error)
    ensures r.Success? ==> fresh(r.value) && r.value.Valid() && ParseInstance(lines) == Success(r.value.View())
  {
    var g := new DiGraph();
    var header := if |lines| == 0 then "" else lines[0];
    var size := HeaderSize(header);
    if size.None? {
      return Failure(ValueError(0));
    }
    var n := size.value;
    var i := 0;
    while i < n
      invariant 0 <= i <= if n < 0 then 0 else n
      invariant g.nodes == NodeRange(i) && g.edges == {} && g.Valid()
    {
      g.AddNode(i + 1);
      i := i + 1;
    }
    assert NodeRange(i) == NodeRange(n);
    var failure := AddEdgeLines(g, n, Body(lines));
    if failure.Some? {
      return Failure(failure.value);
    }
    return Success(g);
  }

  /** The `for line in f` loop of `create_graph`: one `add_edge` per line
      after the header, stopping at the first line that does not read. */
  method AddEdgeLines(g: DiGraph, n: int, body: seq<string>) returns (failure: Option<ParseError>)
    requires g.Valid() && g.nodes == NodeRange(n) && g.edges == {}
    modifies g
    ensures g.Valid()
    ensures failure.Some? ==> CollectEdges(LineResults(body)) == Failure(failure.value)
    ensures failure.None? ==> CollectEdges(LineResults(body)) == Success(g.edges)
    ensures g.nodes == NodeRange(n) + Endpoints(g.edges)
  {
    ghost var results := LineResults(body);
    var k := 0;
    while k < |body|
      invariant 0 <= k <= |body|
      invariant CollectEdges(results[..k]) == Success(g.edges)
      invariant g.nodes == NodeRange(n) + Endpoints(g.edges) && g.Valid()
    {
      var edge := ParseEdgeLine(body[k]);
      assert results[k] == edge;
      if edge.None? {
        CollectStopsAt(results, k);
        return Some(ValueError(k + 1));
      }
      CollectStep(results, k, g.edges);
      EndpointsAdd(g.edges, edge.value);
      g.AddEdge(edge.value.0, edge.value.1);
      k := k + 1;
    }
    assert results[..k] == results;
    return None;
  }
}
