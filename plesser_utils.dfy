/** The list-building helpers of plesser_utils.py: the unordered pairs of a
    list (get_pairs), the copy of a destination list with its second and
    third entries exchanged (reverse_destination_order), and the node and
    edge lists that draw_node_edges builds from an adjacency list before it
    hands them to the renderer. */
module PlesserUtils {

  /* ------------------------------------------------------------------ */
  /* get_pairs                                                           */
  /* ------------------------------------------------------------------ */

  /** The tuple that get_pairs emits for two elements: (min, max). */
  function MinMax(x: int, y: int): (int, int)
  {
    (if y < x then y else x, if y > x then y else x)
  }

  /** The emitted tuple is ordered and consists of the two elements. */
  lemma MinMaxOrdered(x: int, y: int)
    ensures MinMax(x, y).0 <= MinMax(x, y).1
    ensures MinMax(x, y) == (x, y) || MinMax(x, y) == (y, x)
  {
  }

  /** The tuples emitted by the inner loop for row i, for the partners
      i + 1 .. j - 1, in the order they are appended. */
  function RowPrefix(a: seq<int>, i: nat, j: nat): seq<(int, int)>
    requires i < |a| && j <= |a|
    decreases j
  {
    if j <= i + 1 then [] else RowPrefix(a, i, j - 1) + [MinMax(a[i], a[j - 1])]
  }

  /** Number of tuples emitted by the rows 0 .. i - 1 for an input of length n. */
  function RowStart(n: nat, i: nat): nat
    requires i <= n
  {
    if i == 0 then 0 else RowStart(n, i - 1) + (n - i)
  }

  /** The tuples emitted by the rows 0 .. i - 1 of the nested loops. */
  function PairsBefore(a: seq<int>, i: nat): seq<(int, int)>
    requires i <= |a|
  {
    if i == 0 then [] else PairsBefore(a, i - 1) + RowPrefix(a, i - 1, |a|)
  }

  /** Everything get_pairs returns. */
  function Pairs(a: seq<int>): seq<(int, int)>
  {
    PairsBefore(a, |a|)
  }

  /** The position in the output of the tuple for the index pair (i, j). */
  function PairIndex(n: nat, i: nat, j: nat): nat
    requires i < j < n
  {
    RowStart(n, i) + (j - i - 1)
  }

  lemma {:induction false} RowStartClosedForm(n: nat, i: nat)
    requires i <= n
    ensures 2 * RowStart(n, i) == i * (2 * n - i - 1)
  {
    if i > 0 {
      RowStartClosedForm(n, i - 1);
      calc {
        2 * RowStart(n, i);
        2 * RowStart(n, i - 1) + 2 * (n - i);
        (i - 1) * (2 * n - i) + 2 * (n - i);
        i * (2 * n - i - 1);
      }
    }
  }

  lemma {:induction false} RowStartMonotonic(n: nat, p: nat, q: nat)
    requires p <= q <= n
    ensures RowStart(n, p) <= RowStart(n, q)
  {
    if p < q {
      RowStartMonotonic(n, p, q - 1);
    }
  }

  /** Row i holds one tuple per partner j > i, the k-th being for partner i + 1 + k. */
  lemma {:induction false} RowPrefixAt(a: seq<int>, i: nat, j: nat)
    requires i < |a| && j <= |a|
    ensures |RowPrefix(a, i, j)| == if j <= i + 1 then 0 else j - i - 1
    ensures forall k :: 0 <= k < |RowPrefix(a, i, j)| ==> RowPrefix(a, i, j)[k] == MinMax(a[i], a[i + 1 + k])
    decreases j
  {
    if j > i + 1 {
      RowPrefixAt(a, i, j - 1);
    }
  }

  /** The rows before row m hold RowStart(n, m) tuples. */
  lemma {:induction false} PairsBeforeLength(a: seq<int>, m: nat)
    requires m <= |a|
    ensures |PairsBefore(a, m)| == RowStart(|a|, m)
  {
    if m > 0 {
      PairsBeforeLength(a, m - 1);
      RowPrefixAt(a, m - 1, |a|);
    }
  }

  lemma PairsBeforeRow(a: seq<int>, i: nat, j: nat)
    requires i < j < |a|
    ensures PairIndex(|a|, i, j) < |PairsBefore(a, i + 1)|
    ensures PairsBefore(a, i + 1)[PairIndex(|a|, i, j)] == MinMax(a[i], a[j])
  {
    var pre, row := PairsBefore(a, i), RowPrefix(a, i, |a|);
    PairsBeforeLength(a, i);
    RowPrefixAt(a, i, |a|);
    assert PairsBefore(a, i + 1) == pre + row;
    var idx := PairIndex(|a|, i, j);
    assert idx == |pre| + (j - i - 1);
    assert (pre + row)[idx] == row[j - i - 1];
  }

  lemma {:induction false} PairsBeforePrefix(a: seq<int>, p: nat, q: nat)
    requires p <= q <= |a|
    ensures PairsBefore(a, p) <= PairsBefore(a, q)
  {
    if p < q {
      PairsBeforePrefix(a, p, q - 1);
    }
  }

  lemma PairsBeforeAt(a: seq<int>, m: nat, i: nat, j: nat)
    requires i < j < |a| && i < m <= |a|
    ensures PairIndex(|a|, i, j) < |PairsBefore(a, m)|
    ensures PairsBefore(a, m)[PairIndex(|a|, i, j)] == MinMax(a[i], a[j])
  {
    PairsBeforeRow(a, i, j);
    PairsBeforePrefix(a, i + 1, m);
  }

  /** Every position below RowStart(n, m) is the position of an index pair in a row before m. */
  lemma {:induction false} PositionHasIndexPair(n: nat, m: nat, k: nat)
    requires m <= n && k < RowStart(n, m)
    ensures exists i, j :: 0 <= i < j < n && i < m && PairIndex(n, i, j) == k
  {
    var start := RowStart(n, m - 1);
    if k < start {
      PositionHasIndexPair(n, m - 1, k);
    } else {
      var i: nat, j: nat := m - 1, k - start + m;
      assert PairIndex(n, i, j) == k;
    }
  }

  /** get_pairs returns n * (n - 1) / 2 tuples for an input of length n. */
  lemma PairsLength(a: seq<int>)
    ensures |Pairs(a)| == |a| * (|a| - 1) / 2
  {
    var n := |a|;
    PairsBeforeLength(a, n);
    RowStartClosedForm(n, n);
    assert 2 * n - n - 1 == n - 1;
    assert 2 * |Pairs(a)| == n * (n - 1);
  }

  /** The tuple for the index pair (i, j), i < j, is (min, max) of a[i] and
      a[j], and it sits at position PairIndex(n, i, j). */
  lemma PairsAt(a: seq<int>)
    ensures forall i, j :: 0 <= i < j < |a| ==>
              PairIndex(|a|, i, j) < |Pairs(a)| && Pairs(a)[PairIndex(|a|, i, j)] == MinMax(a[i], a[j])
  {
    forall i, j | 0 <= i < j < |a|
      ensures PairIndex(|a|, i, j) < |Pairs(a)| && Pairs(a)[PairIndex(|a|, i, j)] == MinMax(a[i], a[j])
    {
      PairsBeforeAt(a, |a|, i, j);
    }
  }

  /** Position k of ps holds the tuple of some index pair i < j of a, and
      k is the position PairIndex assigns to that pair. */
  ghost predicate HoldsIndexPair(a: seq<int>, ps: seq<(int, int)>, k: int)
  {
    exists i, j :: 0 <= i < j < |a| && PairIndex(|a|, i, j) == k && 0 <= k < |ps| && ps[k] == MinMax(a[i], a[j])
  }

  lemma PairElement(a: seq<int>, k: int)
    requires 0 <= k < |Pairs(a)|
    ensures HoldsIndexPair(a, Pairs(a), k)
  {
    PairsBeforeLength(a, |a|);
    PositionHasIndexPair(|a|, |a|, k);
    var i, j :| 0 <= i < j < |a| && PairIndex(|a|, i, j) == k;
    PairsBeforeAt(a, |a|, i, j);
  }

  /** Every tuple of the output is (min, max) of a[i] and a[j] for an index
      pair i < j whose position it occupies. */
  lemma PairsElements(a: seq<int>)
    ensures forall k :: 0 <= k < |Pairs(a)| ==> HoldsIndexPair(a, Pairs(a), k)
  {
    forall k | 0 <= k < |Pairs(a)|
      ensures HoldsIndexPair(a, Pairs(a), k)
    {
      PairElement(a, k);
    }
  }

  /** Everything get_pairs promises of its result ps for the input a: it has
      n * (n - 1) / 2 tuples, the tuple for each index pair i < j is
      (min, max) of a[i] and a[j] at position PairIndex(n, i, j), and every
      position holds the tuple of the index pair it is assigned to. */
  ghost predicate ListsEveryPair(a: seq<int>, ps: seq<(int, int)>)
  {
    && |ps| == |a| * (|a| - 1) / 2
    && (forall i, j :: 0 <= i < j < |a| ==>
          PairIndex(|a|, i, j) < |ps| && ps[PairIndex(|a|, i, j)] == MinMax(a[i], a[j]))
    && (forall k :: 0 <= k < |ps| ==> HoldsIndexPair(a, ps, k))
  }

  lemma PairsListsEveryPair(a: seq<int>)
    ensures ListsEveryPair(a, Pairs(a))
  {
    PairsLength(a);
    PairsAt(a);
    PairsElements(a);
  }

  /** The output is ordered by index pair: the tuple for (i, j) comes before
      the tuple for (i2, j2) exactly when (i, j) is lexicographically less. */
  lemma PairIndexOrder(n: nat, i: nat, j: nat, i2: nat, j2: nat)
    requires i < j < n && i2 < j2 < n
    ensures (i < i2 || (i == i2 && j < j2)) <==> PairIndex(n, i, j) < PairIndex(n, i2, j2)
  {
    if i < i2 {
      RowStartMonotonic(n, i + 1, i2);
    } else if i2 < i {
      RowStartMonotonic(n, i2 + 1, i);
    }
  }

  lemma AppendAssociative<T>(s: seq<T>, t: seq<T>, x: T)
    ensures (s + t) + [x] == s + (t + [x])
  {
  }

  /** get_pairs: for every index pair i < j, in index order, append
      (min(a[i], a[j]), max(a[i], a[j])). */
  method GetPairs(a: seq<int>) returns (permutations: seq<(int, int)>)
    ensures permutations == Pairs(a)
    ensures ListsEveryPair(a, permutations)
  {
    permutations := [];
    var i := 0;
    while i < |a|
      invariant 0 <= i <= |a|
      invariant permutations == PairsBefore(a, i)
    {
      ghost var done := permutations;
      assert done + RowPrefix(a, i, i + 1) == done;
      var j := i + 1;
      while j < |a|
        invariant i + 1 <= j <= |a|
        invariant permutations == done + RowPrefix(a, i, j)
      {
        var lo := if a[j] < a[i] then a[j] else a[i];  // min(a[i], a[j])
        var hi := if a[j] > a[i] then a[j] else a[i];  // max(a[i], a[j])
        AppendAssociative(done, RowPrefix(a, i, j), (lo, hi));
        permutations := permutations + [(lo, hi)];
        j := j + 1;
      }
      i := i + 1;
    }
    PairsListsEveryPair(a);
  }

  /* ------------------------------------------------------------------ */
  /* reverse_destination_order                                           */
  /* ------------------------------------------------------------------ */

  /** A node identifier such as "e1", "w3" or "b12". */
  type NodeId = string

  /** The destination list with its second and third entries exchanged. */
  function SwapSecondAndThird(d: seq<NodeId>): (r: seq<NodeId>)
    requires |d| >= 3
    ensures |r| == |d|
    ensures r[1] == d[2] && r[2] == d[1]
    ensures forall k :: 0 <= k < |d| && k != 1 && k != 2 ==> r[k] == d[k]
  {
    d[1 := d[2]][2 := d[1]]
  }

  /** Exchanging the second and third destinations twice restores the list. */
  lemma SwapSecondAndThirdInvolution(d: seq<NodeId>)
    requires |d| >= 3
    ensures SwapSecondAndThird(SwapSecondAndThird(d)) == d
  {
    var r := SwapSecondAndThird(SwapSecondAndThird(d));
    assert forall k :: 0 <= k < |d| ==> r[k] == d[k];
  }

  /** reverse_destination_order: copy the list, then overwrite positions 1
      and 2 of the copy from the original. The argument is left as it was. */
  method ReverseDestinationOrder(destinations: array<NodeId>) returns (newDestinations: array<NodeId>)
    requires destinations.Length >= 3
    ensures fresh(newDestinations)
    ensures newDestinations[..] == SwapSecondAndThird(destinations[..])
    ensures destinations[..] == old(destinations[..])
  {
    newDestinations := new NodeId[destinations.Length](k reads destinations
      requires 0 <= k < destinations.Length => destinations[k]);
    newDestinations[1] := destinations[2];
    newDestinations[2] := destinations[1];
  }

  /* ------------------------------------------------------------------ */
  /* the list-building loop of draw_node_edges                           */
  /* ------------------------------------------------------------------ */

  /** A node together with the list of its destinations. */
  type Adjacency = (NodeId, seq<NodeId>)

  /** An edge (node, destination) as draw_node_edges records it. */
  type Edge = (NodeId, NodeId)

  ghost predicate NoDuplicates<T>(s: seq<T>)
  {
    forall p, q :: 0 <= p < q < |s| ==> s[p] != s[q]
  }

  /** x is the node or one of the destinations of some entry of nodeEdges. */
  ghost predicate Mentioned(nodeEdges: seq<Adjacency>, x: NodeId)
  {
    exists k :: 0 <= k < |nodeEdges| && (nodeEdges[k].0 == x || x in nodeEdges[k].1)
  }

  /** (n, d) is one of the input's adjacencies: d is a destination of n. */
  ghost predicate IsAdjacency(nodeEdges: seq<Adjacency>, e: Edge)
  {
    exists k :: 0 <= k < |nodeEdges| && nodeEdges[k].0 == e.0 && e.1 in nodeEdges[k].1
  }

  /** The first position at which x occurs in s. */
  function FirstIndex(s: seq<NodeId>, x: NodeId): (k: nat)
    requires x in s
    ensures k < |s| && s[k] == x && x !in s[..k]
  {
    if s[0] == x then 0 else
      var k := 1 + FirstIndex(s[1..], x);
      assert s[..k] == [s[0]] + s[1..][..k - 1];
      k
  }

  /** The identifiers in the order the loop of draw_node_edges meets them:
      each entry's node, then that entry's destinations. */
  function Appearances(nodeEdges: seq<Adjacency>): seq<NodeId>
  {
    if nodeEdges == [] then [] else
      var last := nodeEdges[|nodeEdges| - 1];
      Appearances(nodeEdges[..|nodeEdges| - 1]) + [last.0] + last.1
  }

  /** The edges an entry proposes: one (node, destination) per destination. */
  function Outgoing(node: NodeId, destinations: seq<NodeId>): (r: seq<Edge>)
    ensures |r| == |destinations|
    ensures forall k :: 0 <= k < |r| ==> r[k] == (node, destinations[k])
  {
    seq(|destinations|, k requires 0 <= k < |destinations| => (node, destinations[k]))
  }

  /** All (node, destination) adjacencies of the input, in loop order. */
  function Adjacencies(nodeEdges: seq<Adjacency>): seq<Edge>
  {
    if nodeEdges == [] then [] else
      var last := nodeEdges[|nodeEdges| - 1];
      Adjacencies(nodeEdges[..|nodeEdges| - 1]) + Outgoing(last.0, last.1)
  }

  /** One step of the node list: append x unless it is already present. */
  function AddNode(nodes: seq<NodeId>, x: NodeId): seq<NodeId>
  {
    if x in nodes then nodes else nodes + [x]
  }

  /** The distinct identifiers of s, each at its first appearance. */
  function Distinct(s: seq<NodeId>): seq<NodeId>
  {
    if s == [] then [] else AddNode(Distinct(s[..|s| - 1]), s[|s| - 1])
  }

  /** No edge is stored in both directions (self-loops aside). */
  ghost predicate OneDirection(edges: seq<Edge>)
  {
    forall x, y :: (x, y) in edges && (y, x) in edges ==> x == y
  }

  /** One step of the edge list: append (node, destination) unless the
      reverse tuple (destination, node) is already present. */
  function AddEdge(edges: seq<Edge>, e: Edge): seq<Edge>
  {
    if (e.1, e.0) in edges then edges else edges + [e]
  }

  /** The edge list built from the adjacencies adj, in order. */
  function UndirectedEdges(adj: seq<Edge>): seq<Edge>
  {
    if adj == [] then [] else AddEdge(UndirectedEdges(adj[..|adj| - 1]), adj[|adj| - 1])
  }

  /** An identifier occurs in the walk exactly when the input mentions it. */
  lemma {:induction false} AppearancesMembers(nodeEdges: seq<Adjacency>)
    ensures forall x :: x in Appearances(nodeEdges) <==> Mentioned(nodeEdges, x)
  {
    if nodeEdges != [] {
      var init := nodeEdges[..|nodeEdges| - 1];
      AppearancesMembers(init);
      assert forall k :: 0 <= k < |init| ==> init[k] == nodeEdges[k];
    }
  }

  /** An edge occurs among the adjacencies exactly when the input lists it. */
  lemma {:induction false} AdjacenciesMembers(nodeEdges: seq<Adjacency>)
    ensures forall e :: e in Adjacencies(nodeEdges) <==> IsAdjacency(nodeEdges, e)
  {
    if nodeEdges != [] {
      var init := nodeEdges[..|nodeEdges| - 1];
      AdjacenciesMembers(init);
      assert forall k :: 0 <= k < |init| ==> init[k] == nodeEdges[k];
    }
  }

  /** Distinct has no repeated identifier and the same identifiers as its input. */
  lemma {:induction false} DistinctMembers(s: seq<NodeId>)
    ensures NoDuplicates(Distinct(s))
    ensures forall x :: x in Distinct(s) <==> x in s
  {
    if s != [] {
      var init := s[..|s| - 1];
      DistinctMembers(init);
      assert s == init + [s[|s| - 1]];
    }
  }

  /** The reverse-direction test keeps the edge list one-directional, and
      the appended edge (or its reverse) is present afterwards. */
  lemma AddEdgeKeepsOneDirection(edges: seq<Edge>, e: Edge)
    ensures e in AddEdge(edges, e) || (e.1, e.0) in AddEdge(edges, e)
    ensures forall f :: f in AddEdge(edges, e) ==> f in edges || f == e
    ensures OneDirection(edges) ==> OneDirection(AddEdge(edges, e))
  {
    var r := AddEdge(edges, e);
    if OneDirection(edges) {
      forall x, y | (x, y) in r && (y, x) in r
        ensures x == y
      {
        if (x, y) !in edges || (y, x) !in edges {
          assert (x, y) == e || (y, x) == e;
        }
      }
    }
  }

  /** Every edge comes from an adjacency, every adjacency is covered in one
      direction or the other, and no edge is stored both ways. */
  lemma {:induction false} UndirectedEdgesProperties(adj: seq<Edge>)
    ensures forall f :: f in UndirectedEdges(adj) ==> f in adj
    ensures forall k :: 0 <= k < |adj| ==>
              adj[k] in UndirectedEdges(adj) || (adj[k].1, adj[k].0) in UndirectedEdges(adj)
    ensures OneDirection(UndirectedEdges(adj))
  {
    if adj != [] {
      var init := adj[..|adj| - 1];
      var prev := UndirectedEdges(init);
      UndirectedEdgesProperties(init);
      AddEdgeKeepsOneDirection(prev, adj[|adj| - 1]);
      assert adj == init + [adj[|adj| - 1]];
      var r := UndirectedEdges(adj);
      assert prev <= r;
      forall k | 0 <= k < |adj|
        ensures adj[k] in r || (adj[k].1, adj[k].0) in r
      {
        if k < |init| {
          assert init[k] == adj[k];
          assert adj[k] in prev || (adj[k].1, adj[k].0) in prev;
        }
      }
    }
  }

  lemma FirstIndexUnique(s: seq<NodeId>, x: NodeId, k: nat)
    requires k < |s| && s[k] == x && x !in s[..k]
    ensures FirstIndex(s, x) == k
  {
  }

  lemma FirstIndexExtend(s: seq<NodeId>, x: NodeId, y: NodeId)
    requires y in s
    ensures FirstIndex(s + [x], y) == FirstIndex(s, y)
  {
    var k := FirstIndex(s, y);
    assert (s + [x])[..k] == s[..k];
    FirstIndexUnique(s + [x], y, k);
  }

  /** nodes lists identifiers of s in the order of their first occurrence in s. */
  ghost predicate InFirstAppearanceOrder(nodes: seq<NodeId>, s: seq<NodeId>)
  {
    forall p, q :: 0 <= p < q < |nodes| ==>
      nodes[p] in s && nodes[q] in s && FirstIndex(s, nodes[p]) < FirstIndex(s, nodes[q])
  }

  /** Distinct keeps the order of first appearance: an identifier placed
      earlier in the result first occurs earlier in the input. */
  lemma {:induction false} DistinctFirstAppearanceOrder(s: seq<NodeId>)
    ensures InFirstAppearanceOrder(Distinct(s), s)
  {
    if s != [] {
      var init, x := s[..|s| - 1], s[|s| - 1];
      assert s == init + [x];
      DistinctFirstAppearanceOrder(init);
      DistinctMembers(init);
      var d := Distinct(init);
      var r := Distinct(s);
      assert r == AddNode(d, x);
      forall p, q | 0 <= p < q < |r|
        ensures r[p] in s && r[q] in s && FirstIndex(s, r[p]) < FirstIndex(s, r[q])
      {
        assert r[p] == d[p] && d[p] in init;
        FirstIndexExtend(init, x, d[p]);
        if q < |d| {
          assert r[q] == d[q] && d[q] in init;
          FirstIndexExtend(init, x, d[q]);
        } else {
          assert r[q] == x && x !in init;
          assert s[..|init|] == init;
          FirstIndexUnique(s, x, |init|);
        }
      }
    }
  }

  /** Only the reverse tuple is tested before appending, so when the reverse
      of a non-loop edge is never proposed, every repeat of it is kept. */
  lemma {:induction false} UndirectedEdgesKeepsRepeats(adj: seq<Edge>, e: Edge)
    requires e.0 != e.1 && (e.1, e.0) !in adj
    ensures multiset(UndirectedEdges(adj))[e] == multiset(adj)[e]
  {
    if adj != [] {
      var init, last := adj[..|adj| - 1], adj[|adj| - 1];
      assert adj == init + [last];
      UndirectedEdgesKeepsRepeats(init, e);
      UndirectedEdgesProperties(init);
    }
  }

  lemma DistinctSnoc(s: seq<NodeId>, x: NodeId)
    ensures Distinct(s + [x]) == AddNode(Distinct(s), x)
  {
    assert (s + [x])[..|s|] == s;
  }

  lemma UndirectedEdgesSnoc(adj: seq<Edge>, e: Edge)
    ensures UndirectedEdges(adj + [e]) == AddEdge(UndirectedEdges(adj), e)
  {
    assert (adj + [e])[..|adj|] == adj;
  }

  lemma AppearancesSnoc(nodeEdges: seq<Adjacency>, i: nat)
    requires i < |nodeEdges|
    ensures Appearances(nodeEdges[..i + 1]) == Appearances(nodeEdges[..i]) + [nodeEdges[i].0] + nodeEdges[i].1
    ensures Adjacencies(nodeEdges[..i + 1]) == Adjacencies(nodeEdges[..i]) + Outgoing(nodeEdges[i].0, nodeEdges[i].1)
  {
    assert nodeEdges[..i + 1][..i] == nodeEdges[..i];
  }

  lemma SliceSnoc<T>(prefix: seq<T>, s: seq<T>, j: nat)
    requires j < |s|
    ensures prefix + s[..j + 1] == (prefix + s[..j]) + [s[j]]
  {
    assert s[..j + 1] == s[..j] + [s[j]];
  }

  lemma OutgoingSnoc(before: seq<Edge>, node: NodeId, destinations: seq<NodeId>, j: nat)
    requires j < |destinations|
    ensures before + Outgoing(node, destinations[..j + 1])
            == (before + Outgoing(node, destinations[..j])) + [(node, destinations[j])]
  {
    assert Outgoing(node, destinations[..j + 1]) == Outgoing(node, destinations[..j]) + [(node, destinations[j])];
  }

  /** The node list has no repeated identifier, holds exactly the
      identifiers the input mentions, and lists them in the order of their
      first appearance in the walk over the input. */
  ghost predicate NodeListSound(nodeEdges: seq<Adjacency>, nodes: seq<NodeId>)
  {
    && NoDuplicates(nodes)
    && (forall x :: x in nodes <==> Mentioned(nodeEdges, x))
    && InFirstAppearanceOrder(nodes, Appearances(nodeEdges))
  }

  /** Every adjacency of the input is in the edge list in one direction or
      the other, every edge is an adjacency of the input, and no edge is
      stored both ways. */
  ghost predicate EdgeListSound(nodeEdges: seq<Adjacency>, edges: seq<Edge>)
  {
    && (forall k, j :: 0 <= k < |nodeEdges| && 0 <= j < |nodeEdges[k].1| ==>
          (nodeEdges[k].0, nodeEdges[k].1[j]) in edges || (nodeEdges[k].1[j], nodeEdges[k].0) in edges)
    && (forall e :: e in edges ==> IsAdjacency(nodeEdges, e))
    && OneDirection(edges)
  }

  /** What draw_node_edges promises of its two lists, stated over the input. */
  lemma {:induction false} NodeEdgeListsSound(nodeEdges: seq<Adjacency>)
    ensures NodeListSound(nodeEdges, Distinct(Appearances(nodeEdges)))
    ensures EdgeListSound(nodeEdges, UndirectedEdges(Adjacencies(nodeEdges)))
  {
    var seen := Appearances(nodeEdges);
    AppearancesMembers(nodeEdges);
    DistinctMembers(seen);
    DistinctFirstAppearanceOrder(seen);
    var adj := Adjacencies(nodeEdges);
    var edges := UndirectedEdges(adj);
    AdjacenciesMembers(nodeEdges);
    UndirectedEdgesProperties(adj);
    forall k, j | 0 <= k < |nodeEdges| && 0 <= j < |nodeEdges[k].1|
      ensures (nodeEdges[k].0, nodeEdges[k].1[j]) in edges || (nodeEdges[k].1[j], nodeEdges[k].0) in edges
    {
      assert IsAdjacency(nodeEdges, (nodeEdges[k].0, nodeEdges[k].1[j]));
      var m :| 0 <= m < |adj| && adj[m] == (nodeEdges[k].0, nodeEdges[k].1[j]);
    }
  }

  /** The list-building part of draw_node_edges: the distinct identifiers in
      order of first appearance, and one edge per adjacency whose reverse
      has not been recorded yet. */
  method CollectNodesAndEdges(nodeEdges: seq<Adjacency>) returns (nodes: seq<NodeId>, edges: seq<Edge>)
    ensures nodes == Distinct(Appearances(nodeEdges))
    ensures edges == UndirectedEdges(Adjacencies(nodeEdges))
    ensures NodeListSound(nodeEdges, nodes)
    ensures EdgeListSound(nodeEdges, edges)
  {
    nodes, edges := [], [];
    ghost var walked: seq<NodeId> := [];
    ghost var proposed: seq<Edge> := [];
    var i := 0;
    while i < |nodeEdges|
      invariant 0 <= i <= |nodeEdges|
      invariant walked == Appearances(nodeEdges[..i]) && nodes == Distinct(walked)
      invariant proposed == Adjacencies(nodeEdges[..i]) && edges == UndirectedEdges(proposed)
    {
      var (node, destinations) := nodeEdges[i];
      AppearancesSnoc(nodeEdges, i);
      DistinctSnoc(walked, node);
      if node !in nodes {
        nodes := nodes + [node];
      }
      walked := walked + [node];
      ghost var walkedBefore := walked;
      ghost var before := proposed;
      assert walkedBefore + destinations[..0] == walkedBefore;
      assert before + Outgoing(node, destinations[..0]) == before;
      var j := 0;
      while j < |destinations|
        invariant 0 <= j <= |destinations|
        invariant walked == walkedBefore + destinations[..j]
        invariant proposed == before + Outgoing(node, destinations[..j])
        invariant nodes == Distinct(walked) && edges == UndirectedEdges(proposed)
      {
        var destination := destinations[j];
        SliceSnoc(walkedBefore, destinations, j);
        DistinctSnoc(walked, destination);
        OutgoingSnoc(before, node, destinations, j);
        UndirectedEdgesSnoc(proposed, (node, destination));
        if destination !in nodes {
          nodes := nodes + [destination];
        }
        if (destination, node) !in edges {
          edges := edges + [(node, destination)];
        }
        walked := walked + [destination];
        proposed := proposed + [(node, destination)];
        j := j + 1;
      }
      assert destinations[..j] == destinations;
      i := i + 1;
    }
    assert nodeEdges[..i] == nodeEdges;
    NodeEdgeListsSound(nodeEdges);
  }
}
