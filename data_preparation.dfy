/**
 * One instance of `generate_data`: given the two permutations that the
 * retry loop settled on, build the dimension-2 order and the lines of its
 * file; and what `create_graph` makes of that file.
 */
module DataPreparation {
  import opened DimensionTwo
  import opened InstanceFormat

  /** Rank tables, the nested loops over all pairs, then the file lines.
      The permutations are the ones the retry loop accepts: two different
      permutations of 0..n-1. */
  method GenerateInstance(n: nat, p1: seq<int>, p2: seq<int>)
      returns (partialOrder: seq<(int, int)>, lines: seq<string>)
    requires IsPermutation(p1, n) && IsPermutation(p2, n)
    requires p1 != p2
    ensures OrderList(RankTable(p1), RankTable(p2), n, partialOrder)
    ensures lines == InstanceLines(n, partialOrder)
  {
    var inverse1 := RankTable(p1);
    var inverse2 := RankTable(p2);
    partialOrder := BuildPartialOrder(n, inverse1, inverse2);
    lines := WriteInstance(n, partialOrder);
  }

  /** Reading back a generated file gives the nodes 1..n and an edge a -> b
      exactly when element a-1 is ranked below element b-1 by both
      permutations. */
  lemma GeneratedFileReadsBack(n: nat, p1: seq<int>, p2: seq<int>, partialOrder: seq<(int, int)>)
    requires IsPermutation(p1, n) && IsPermutation(p2, n)
    requires OrderList(RankTable(p1), RankTable(p2), n, partialOrder)
    ensures ParseInstance(InstanceLines(n, partialOrder)).Success?
    ensures ParseInstance(InstanceLines(n, partialOrder)).value.nodes == NodeRange(n)
    ensures forall a, b :: (a, b) in ParseInstance(InstanceLines(n, partialOrder)).value.edges <==>
      1 <= a <= n && 1 <= b <= n && p1[a - 1] < p1[b - 1] && p2[a - 1] < p2[b - 1]
  {
    RoundTrip(n, partialOrder);
    ShiftedOrder(n, p1, p2, partialOrder);
  }

  /** The shifted pairs of the generated list, in terms of the permutations. */
  lemma ShiftedOrder(n: nat, p1: seq<int>, p2: seq<int>, partialOrder: seq<(int, int)>)
    requires IsPermutation(p1, n) && IsPermutation(p2, n)
    requires OrderList(RankTable(p1), RankTable(p2), n, partialOrder)
    ensures forall a, b :: (a, b) in Shifted(partialOrder) <==>
      1 <= a <= n && 1 <= b <= n && p1[a - 1] < p1[b - 1] && p2[a - 1] < p2[b - 1]
  {
    forall a, b ensures (a, b) in Shifted(partialOrder) <==>
      1 <= a <= n && 1 <= b <= n && p1[a - 1] < p1[b - 1] && p2[a - 1] < p2[b - 1]
    {
      ShiftedPair(n, p1, p2, partialOrder, a, b);
    }
  }

  /** ShiftedOrder for one pair. */
  lemma ShiftedPair(n: nat, p1: seq<int>, p2: seq<int>, partialOrder: seq<(int, int)>, a: int, b: int)
    requires |p1| == n && |p2| == n
    requires OrderList(RankTable(p1), RankTable(p2), n, partialOrder)
    ensures (a, b) in Shifted(partialOrder) <==>
      1 <= a <= n && 1 <= b <= n && p1[a - 1] < p1[b - 1] && p2[a - 1] < p2[b - 1]
  {
    var rank1, rank2 := RankTable(p1), RankTable(p2);
    ShiftedMember(partialOrder, a, b);
    if 1 <= a <= n && 1 <= b <= n {
      assert forall i :: 0 <= i < n ==> i in rank1 && i in rank2;
      OrderListMembership(rank1, rank2, n, partialOrder, a - 1, b - 1);
      assert rank1[a - 1] == p1[a - 1] && rank1[b - 1] == p1[b - 1];
      assert rank2[a - 1] == p2[a - 1] && rank2[b - 1] == p2[b - 1];
    } else {
      assert forall k :: 0 <= k < |partialOrder| ==> partialOrder[k] != (a - 1, b - 1);
    }
  }

  /** Since the permutations differ, the graph read back has two distinct
      nodes with no edge between them in either direction: it is not a
      chain, that is, not an order of dimension 1. */
  lemma GeneratedGraphIsNotChain(n: nat, p1: seq<int>, p2: seq<int>, partialOrder: seq<(int, int)>)
    requires IsPermutation(p1, n) && IsPermutation(p2, n) && p1 != p2
    requires OrderList(RankTable(p1), RankTable(p2), n, partialOrder)
    ensures ParseInstance(InstanceLines(n, partialOrder)).Success?
    ensures exists a, b ::
      (&& a in ParseInstance(InstanceLines(n, partialOrder)).value.nodes
       && b in ParseInstance(InstanceLines(n, partialOrder)).value.nodes
       && a != b
       && (a, b) !in ParseInstance(InstanceLines(n, partialOrder)).value.edges
       && (b, a) !in ParseInstance(InstanceLines(n, partialOrder)).value.edges)
  {
    GeneratedFileReadsBack(n, p1, p2, partialOrder);
    IncomparableNodes(n, p1, p2, ParseInstance(InstanceLines(n, partialOrder)).value);
  }

  /** A graph on the nodes 1..n whose edges are the pairs both permutations
      rank in the same direction has two nodes with no edge either way. */
  lemma IncomparableNodes(n: nat, p1: seq<int>, p2: seq<int>, g: Graph)
    requires IsPermutation(p1, n) && IsPermutation(p2, n) && p1 != p2
    requires g.nodes == NodeRange(n)
    requires forall a, b :: (a, b) in g.edges <==>
      1 <= a <= n && 1 <= b <= n && p1[a - 1] < p1[b - 1] && p2[a - 1] < p2[b - 1]
    ensures exists a, b :: a in g.nodes && b in g.nodes && a != b && (a, b) !in g.edges && (b, a) !in g.edges
  {
    var u, v := FindInversion(p1, p2, n);
    assert u + 1 in g.nodes && v + 1 in g.nodes;
    assert (u + 1, v + 1) !in g.edges;
    assert (v + 1, u + 1) !in g.edges;
  }
}
