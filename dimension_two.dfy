/**
 * A random partial order of dimension 2 on the elements 0..n-1, as the
 * instance generator builds it: two permutations give every element a rank
 * in two total orders, and `u` is below `v` when it is ranked lower in both.
 * The random draw itself is not modelled: the permutations are parameters.
 */
module DimensionTwo {

  /** `p` is a permutation of 0..n-1: its n entries are in range and each of
      0..n-1 occurs exactly once. */
  predicate IsPermutation(p: seq<int>, n: nat) {
    && |p| == n
    && (forall i :: 0 <= i < n ==> 0 <= p[i] < n)
    && (forall i, j :: 0 <= i < j < n ==> p[i] != p[j])
    && (forall r :: 0 <= r < n ==> r in p)
  }

  /** The dictionary `{i: p[i] for i in range(n)}`: the rank of element i. */
  function RankTable(p: seq<int>): map<int, int> {
    map i | 0 <= i < |p| :: p[i]
  }

  /** The elements 0..n-1. */
  function Elements(n: nat): (s: set<int>)
    ensures forall i :: i in s <==> 0 <= i < n
  {
    if n == 0 then {} else Elements(n - 1) + {n - 1}
  }

  /** A rank table of a permutation is a bijection of 0..n-1 onto itself. */
  lemma RankTableIsBijection(p: seq<int>, n: nat)
    requires IsPermutation(p, n)
    ensures RankTable(p).Keys == Elements(n)
    ensures RankTable(p).Values == Elements(n)
    ensures forall u, v :: u in RankTable(p) && v in RankTable(p) && u != v ==> RankTable(p)[u] != RankTable(p)[v]
  {
    RankTableKeys(p, n);
    RankTableValues(p, n);
    RankTableInjective(p, n);
  }

  lemma RankTableValues(p: seq<int>, n: nat)
    requires IsPermutation(p, n)
    ensures RankTable(p).Values == Elements(n)
  {
    RankTableOnto(p, n);
    RankTableInto(p, n);
  }

  lemma RankTableKeys(p: seq<int>, n: nat)
    requires |p| == n
    ensures RankTable(p).Keys == Elements(n)
  {
    var rank := RankTable(p);
    forall i ensures i in rank.Keys <==> i in Elements(n) {
    }
  }

  lemma RankTableInjective(p: seq<int>, n: nat)
    requires IsPermutation(p, n)
    ensures forall u, v :: u in RankTable(p) && v in RankTable(p) && u != v ==> RankTable(p)[u] != RankTable(p)[v]
  {
    var rank := RankTable(p);
    forall u, v | u in rank && v in rank && u != v ensures rank[u] != rank[v] {
      assert rank[u] == p[u] && rank[v] == p[v];
      if u < v { assert p[u] != p[v]; } else { assert p[v] != p[u]; }
    }
  }

  lemma RankTableOnto(p: seq<int>, n: nat)
    requires IsPermutation(p, n)
    ensures Elements(n) <= RankTable(p).Values
  {
    var rank := RankTable(p);
    forall r | r in Elements(n) ensures r in rank.Values {
      assert r in p;
      var i :| 0 <= i < n && p[i] == r;
      assert i in rank && rank[i] == r;
    }
  }

  lemma RankTableInto(p: seq<int>, n: nat)
    requires IsPermutation(p, n)
    ensures RankTable(p).Values <= Elements(n)
  {
    var rank := RankTable(p);
    forall r | r in rank.Values ensures r in Elements(n) {
      var i :| i in rank && rank[i] == r;
    }
  }

  /** The order relation of the instance: `u` precedes `v` when both have a
      rank in both tables and `u` is ranked lower in each. */
  predicate Precedes(rank1: map<int, int>, rank2: map<int, int>, u: int, v: int) {
    && u in rank1 && v in rank1 && u in rank2 && v in rank2
    && rank1[u] < rank1[v] && rank2[u] < rank2[v]
  }

  /** The strict total order that one rank table induces. */
  predicate RankedBelow(rank: map<int, int>, u: int, v: int) {
    u in rank && v in rank && rank[u] < rank[v]
  }

  /** Pairs in lexicographic order: the order of the nested `for u` / `for v` loops. */
  predicate LexLess(a: (int, int), b: (int, int)) {
    a.0 < b.0 || (a.0 == b.0 && a.1 < b.1)
  }

  /** Each pair lexicographically below every later one. */
  predicate StrictlySorted(s: seq<(int, int)>) {
    forall i, j :: 0 <= i < j < |s| ==> LexLess(s[i], s[j])
  }

  /** What the construction produces: every listed pair is in range and in the
      relation, every related pair in range is listed, and the pairs are in
      strictly increasing lexicographic order (so none is listed twice). */
  predicate OrderList(rank1: map<int, int>, rank2: map<int, int>, n: nat, order: seq<(int, int)>) {
    && (forall k :: 0 <= k < |order| ==>
          0 <= order[k].0 < n && 0 <= order[k].1 < n && Precedes(rank1, rank2, order[k].0, order[k].1))
    && (forall u, v :: 0 <= u < n && 0 <= v < n && Precedes(rank1, rank2, u, v) ==> (u, v) in order)
    && StrictlySorted(order)
  }

  /** The nested loops that append every pair `(u, v)` with `u` below `v` in
      both rank tables. */
  method BuildPartialOrder(n: nat, inverse1: map<int, int>, inverse2: map<int, int>)
      returns (partialOrder: seq<(int, int)>)
    requires forall i :: 0 <= i < n ==> i in inverse1 && i in inverse2
    ensures OrderList(inverse1, inverse2, n, partialOrder)
  {
    partialOrder := [];
    var u := 0;
    while u < n
      invariant 0 <= u <= n
      invariant forall k :: 0 <= k < |partialOrder| ==>
        0 <= partialOrder[k].0 < u && 0 <= partialOrder[k].1 < n
        && Precedes(inverse1, inverse2, partialOrder[k].0, partialOrder[k].1)
      invariant forall x, y :: 0 <= x < u && 0 <= y < n && Precedes(inverse1, inverse2, x, y) ==> (x, y) in partialOrder
      invariant forall i, j :: 0 <= i < j < |partialOrder| ==> LexLess(partialOrder[i], partialOrder[j])
    {
      var v := 0;
      while v < n
        invariant 0 <= v <= n
        invariant forall k :: 0 <= k < |partialOrder| ==>
          0 <= partialOrder[k].0 < n && 0 <= partialOrder[k].1 < n
          && Precedes(inverse1, inverse2, partialOrder[k].0, partialOrder[k].1)
          && LexLess(partialOrder[k], (u, v))
        invariant forall x, y :: 0 <= x < u && 0 <= y < n && Precedes(inverse1, inverse2, x, y) ==> (x, y) in partialOrder
        invariant forall y :: 0 <= y < v && Precedes(inverse1, inverse2, u, y) ==> (u, y) in partialOrder
        invariant forall i, j :: 0 <= i < j < |partialOrder| ==> LexLess(partialOrder[i], partialOrder[j])
      {
        if inverse1[u] < inverse1[v] && inverse2[u] < inverse2[v] {
          AppendKeepsMembers(partialOrder, (u, v));
          partialOrder := partialOrder + [(u, v)];
        }
        v := v + 1;
      }
      u := u + 1;
    }
  }

  lemma AppendKeepsMembers(order: seq<(int, int)>, e: (int, int))
    ensures forall x :: x in order ==> x in order + [e]
    ensures e in order + [e]
  {
  }

  // ------------------------------------------------------------ properties

  /** The relation is the intersection of the two strict total orders given
      by the rank tables, which is what "dimension 2" means. */
  lemma PrecedesIsIntersection(p1: seq<int>, p2: seq<int>, n: nat)
    requires IsPermutation(p1, n) && IsPermutation(p2, n)
    ensures forall u, v :: Precedes(RankTable(p1), RankTable(p2), u, v) <==>
      RankedBelow(RankTable(p1), u, v) && RankedBelow(RankTable(p2), u, v)
    ensures forall u, v :: u in Elements(n) && v in Elements(n) && u != v ==>
      RankedBelow(RankTable(p1), u, v) || RankedBelow(RankTable(p1), v, u)
    ensures forall u, v :: u in Elements(n) && v in Elements(n) && u != v ==>
      RankedBelow(RankTable(p2), u, v) || RankedBelow(RankTable(p2), v, u)
  {
    RankedBelowIsLinearOrder(p1, n);
    RankedBelowIsLinearOrder(p2, n);
  }

  /** Each rank table of a permutation orders 0..n-1 linearly: RankedBelow is
      irreflexive, transitive and total there. */
  lemma RankedBelowIsLinearOrder(p: seq<int>, n: nat)
    requires IsPermutation(p, n)
    ensures forall u :: !RankedBelow(RankTable(p), u, u)
    ensures forall u, v, w :: RankedBelow(RankTable(p), u, v) && RankedBelow(RankTable(p), v, w) ==>
      RankedBelow(RankTable(p), u, w)
    ensures forall u, v :: u in Elements(n) && v in Elements(n) && u != v ==>
      RankedBelow(RankTable(p), u, v) || RankedBelow(RankTable(p), v, u)
  {
    TotalOnElements(p, n);
  }

  lemma TotalOnElements(p: seq<int>, n: nat)
    requires IsPermutation(p, n)
    ensures forall u, v :: u in Elements(n) && v in Elements(n) && u != v ==>
      RankedBelow(RankTable(p), u, v) || RankedBelow(RankTable(p), v, u)
  {
    RankTableIsBijection(p, n);
  }

  /** The listed pairs form a strict partial order on 0..n-1: irreflexive,
      antisymmetric (indeed asymmetric) and transitive; and no pair is listed
      twice. */
  lemma OrderListIsStrictPartialOrder(rank1: map<int, int>, rank2: map<int, int>, n: nat, order: seq<(int, int)>)
    requires OrderList(rank1, rank2, n, order)
    ensures forall u :: (u, u) !in order
    ensures forall u, v :: (u, v) in order ==> (v, u) !in order
    ensures forall u, v, w :: (u, v) in order && (v, w) in order ==> (u, w) in order
    ensures forall i, j :: 0 <= i < |order| && 0 <= j < |order| && i != j ==> order[i] != order[j]
  {
    forall u, v, w | (u, v) in order && (v, w) in order ensures (u, w) in order {
      var i :| 0 <= i < |order| && order[i] == (u, v);
      var j :| 0 <= j < |order| && order[j] == (v, w);
      assert Precedes(rank1, rank2, u, w);
    }
    forall i, j | 0 <= i < |order| && 0 <= j < |order| && i != j ensures order[i] != order[j] {
      if i < j { assert LexLess(order[i], order[j]); } else { assert LexLess(order[j], order[i]); }
    }
  }

  /** A pair is listed exactly when both ranks of `u` are below those of `v`. */
  lemma OrderListMembership(rank1: map<int, int>, rank2: map<int, int>, n: nat, order: seq<(int, int)>, u: int, v: int)
    requires forall i :: 0 <= i < n ==> i in rank1 && i in rank2
    requires OrderList(rank1, rank2, n, order)
    requires 0 <= u < n && 0 <= v < n
    ensures (u, v) in order <==> rank1[u] < rank1[v] && rank2[u] < rank2[v]
  {
    if (u, v) in order {
      var k :| 0 <= k < |order| && order[k] == (u, v);
    }
  }

  /** Two lists that satisfy OrderList for the same tables are equal: the
      contract of BuildPartialOrder fixes its result completely. */
  lemma {:induction false} OrderListUnique(rank1: map<int, int>, rank2: map<int, int>, n: nat, a: seq<(int, int)>, b: seq<(int, int)>)
    requires OrderList(rank1, rank2, n, a) && OrderList(rank1, rank2, n, b)
    ensures a == b
  {
    SortedSameElementsEqual(a, b);
  }

  lemma {:induction false} SortedSameElementsEqual(a: seq<(int, int)>, b: seq<(int, int)>)
    requires StrictlySorted(a) && StrictlySorted(b)
    requires forall x :: x in a <==> x in b
    ensures a == b
    decreases |a|
  {
    if a != [] { assert a[0] in b; }
    if b != [] { assert b[0] in a; }
    if a != [] {
      // The first entries are both the least element of the common set.
      var j :| 0 <= j < |b| && b[j] == a[0];
      var i :| 0 <= i < |a| && a[i] == b[0];
      assert a[0] == b[0];
      forall x ensures x in a[1..] <==> x in b[1..] {
        if x in a[1..] {
          var i :| 0 <= i < |a| - 1 && a[1..][i] == x;
          assert LexLess(a[0], a[i + 1]);
          assert x in a;
          var j :| 0 <= j < |b| && b[j] == x;
          assert j != 0;
          assert b[1..][j - 1] == x;
        }
        if x in b[1..] {
          var j :| 0 <= j < |b| - 1 && b[1..][j] == x;
          assert LexLess(b[0], b[j + 1]);
          assert x in b;
          var i :| 0 <= i < |a| && a[i] == x;
          assert i != 0;
          assert a[1..][i - 1] == x;
        }
      }
      SortedSameElementsEqual(a[1..], b[1..]);
      assert a == [a[0]] + a[1..] && b == [b[0]] + b[1..];
    }
  }

  /** The set of related pairs within 0..n-1. */
  function RelatedPairs(rank1: map<int, int>, rank2: map<int, int>, n: nat): set<(int, int)> {
    set u, v | 0 <= u < n && 0 <= v < n && Precedes(rank1, rank2, u, v) :: (u, v)
  }

  /** The length of the list, written as `m` in the instance header, is the
      number of related pairs. */
  lemma OrderListCount(rank1: map<int, int>, rank2: map<int, int>, n: nat, order: seq<(int, int)>)
    requires OrderList(rank1, rank2, n, order)
    ensures |order| == |RelatedPairs(rank1, rank2, n)|
  {
    OrderListIsStrictPartialOrder(rank1, rank2, n, order);
    var elems := set k | 0 <= k < |order| :: order[k];
    assert elems == RelatedPairs(rank1, rank2, n) by {
      forall x | x in RelatedPairs(rank1, rank2, n) ensures x in elems {
        var k :| 0 <= k < |order| && order[k] == x;
      }
    }
    DistinctCount(order);
  }

  lemma {:induction false} DistinctCount(s: seq<(int, int)>)
    requires forall i, j :: 0 <= i < |s| && 0 <= j < |s| && i != j ==> s[i] != s[j]
    ensures |set k | 0 <= k < |s| :: s[k]| == |s|
    decreases |s|
  {
    if s != [] {
      var init := s[..|s| - 1];
      DistinctCount(init);
      var all := set k | 0 <= k < |s| :: s[k];
      var front := set k | 0 <= k < |init| :: init[k];
      assert all == front + {s[|s| - 1]};
      assert s[|s| - 1] !in front;
    }
  }

  /** Two different permutations give two elements that neither precedes:
      the order is not a chain.  Different permutations of 0..n-1 also need
      at least two elements, so the generator's retry loop can only stop for
      n >= 2. */
  lemma DistinctPermutationsLeaveIncomparablePair(p1: seq<int>, p2: seq<int>, n: nat)
    requires IsPermutation(p1, n) && IsPermutation(p2, n) && p1 != p2
    ensures n >= 2
    ensures exists u, v ::
      (&& 0 <= u < n && 0 <= v < n && u != v
       && !Precedes(RankTable(p1), RankTable(p2), u, v)
       && !Precedes(RankTable(p1), RankTable(p2), v, u))
  {
    var u, v := FindInversion(p1, p2, n);
    assert !Precedes(RankTable(p1), RankTable(p2), u, v);
    assert !Precedes(RankTable(p1), RankTable(p2), v, u);
  }

  /** With fewer than two elements there is only one permutation, so the
      retry condition "p1 equals p2" holds for every draw. */
  lemma SmallSizesHaveOnePermutation(p1: seq<int>, p2: seq<int>, n: nat)
    requires IsPermutation(p1, n) && IsPermutation(p2, n) && n <= 1
    ensures p1 == p2
  {
    if n == 1 {
      assert p1[0] == 0 && p2[0] == 0;
    }
  }

  /** Two elements ranked one way by p1 and the other way by p2. */
  lemma FindInversion(p1: seq<int>, p2: seq<int>, n: nat) returns (u: int, v: int)
    requires IsPermutation(p1, n) && IsPermutation(p2, n) && p1 != p2
    ensures n >= 2
    ensures 0 <= u < n && 0 <= v < n && p1[u] < p1[v] && p2[v] < p2[u]
  {
    var k, x := FirstDisagreement(p1, p2, n);
    // The element x ranked k by p1 is not ranked k by p2.
    // The element y with p1-rank p2[x] is x itself, so p2[x] is not below k.
    assert p2[x] in p1;
    var y :| 0 <= y < n && p1[y] == p2[x];
    assert p2[x] > k;
    // The element w ranked k by p2 has p1-rank above k.
    assert k in p2;
    var w :| 0 <= w < n && p2[w] == k;
    assert p1[w] > k;
    u, v := x, w;
  }

  /** The lowest p1-rank k whose element x is ranked differently by p2:
      below k the two permutations agree element by element. */
  lemma FirstDisagreement(p1: seq<int>, p2: seq<int>, n: nat) returns (k: int, x: int)
    requires |p1| == n && |p2| == n && p1 != p2
    requires forall i :: 0 <= i < n ==> 0 <= p1[i] < n
    ensures 0 <= x < n && p1[x] == k && p2[x] != k
    ensures forall i :: 0 <= i < n && p1[i] < k ==> p2[i] == p1[i]
  {
    // Walk the ranks of p1 upward while p2 agrees with p1 on every element
    // ranked below; some element d is ranked differently, so the walk stops
    // before n.
    assert exists d :: 0 <= d < n && p1[d] != p2[d];
    var d :| 0 <= d < n && p1[d] != p2[d];
    k := 0;
    while k < n && (forall i :: 0 <= i < n && p1[i] == k ==> p2[i] == k)
      invariant 0 <= k <= n
      invariant forall i :: 0 <= i < n && p1[i] < k ==> p2[i] == p1[i]
    {
      k := k + 1;
    }
    assert p1[d] < n;
    assert k < n;
    x :| 0 <= x < n && p1[x] == k && p2[x] != k;
  }
}
