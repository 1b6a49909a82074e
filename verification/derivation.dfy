/** The derivation steps of the road graph, built the way the source builds them:
    nested loops that append to lists, set matrix cells and count edges. Each method
    is proved equal to the corresponding function of RoadGraph. */
module Derivation {
  import opened Wrappers
  import opened SortedSets
  import opened RoadGraph

  /** The reverse adjacency list: for each node and each neighbour id v, append the node's
      0-based index to entry v-1; then sort and deduplicate every entry. */
  method BuildReverseAdjacencyList(adj: seq<seq<int>>) returns (rev: seq<seq<int>>)
    requires WellFormed(adj)
    ensures rev == ReverseAdjacency(adj)
  {
    var lists: seq<seq<int>> := seq(|adj|, _ => []);
    var i := 0;
    while i < |adj|
      invariant 0 <= i <= |adj| && |lists| == |adj|
      invariant forall t :: 0 <= t < |adj| ==> lists[t] == Predecessors(adj, t + 1, i)
    {
      var p := 0;
      while p < |adj[i]|
        invariant 0 <= p <= |adj[i]| && |lists| == |adj|
        invariant forall t :: 0 <= t < |adj| ==>
          lists[t] == Predecessors(adj, t + 1, i) + (if t + 1 in adj[i][..p] then [i] else [])
      {
        var v := adj[i][p];
        assert v in adj[i] && NeighboursValid(adj[i], |adj|);
        assert v !in adj[i][..p];
        assert adj[i][..p + 1] == adj[i][..p] + [v];
        lists := lists[v - 1 := lists[v - 1] + [i]];
        p := p + 1;
      }
      assert adj[i][..p] == adj[i];
      i := i + 1;
    }
    rev := seq(|lists|, t requires 0 <= t < |lists| => Normalize(lists[t]));
    forall t | 0 <= t < |adj|
      ensures rev[t] == ReverseAdjacency(adj)[t]
    {
      NormalizeSorted(lists[t]);
    }
  }

  /** The n x n 0/1 adjacency matrix: start from zeros, set cell (i, v-1) for each neighbour v of node i. */
  method BuildAdjacencyMatrix(adj: seq<seq<int>>, n: nat) returns (m: array2<int>)
    requires n == |adj| && ValidRoadGraph(adj, n)
    ensures fresh(m) && m.Length0 == n && m.Length1 == n
    ensures forall i, k :: 0 <= i < n && 0 <= k < n ==> m[i, k] == if k + 1 in adj[i] then 1 else 0
    ensures forall i, k :: 0 <= i < n && 0 <= k < n ==> m[i, k] == AdjacencyMatrix(adj)[i][k]
  {
    m := new int[n, n]((_, _) => 0);
    for i := 0 to n
      invariant forall r, k :: 0 <= r < i && 0 <= k < n ==> m[r, k] == if k + 1 in adj[r] then 1 else 0
      invariant forall r, k :: i <= r < n && 0 <= k < n ==> m[r, k] == 0
    {
      for p := 0 to |adj[i]|
        invariant forall r, k :: 0 <= r < i && 0 <= k < n ==> m[r, k] == if k + 1 in adj[r] then 1 else 0
        invariant forall r, k :: i < r < n && 0 <= k < n ==> m[r, k] == 0
        invariant forall k :: 0 <= k < n ==> m[i, k] == if k + 1 in adj[i][..p] then 1 else 0
      {
        var v := adj[i][p];
        assert v in adj[i] && NeighboursValid(adj[i], n);
        assert adj[i][..p + 1] == adj[i][..p] + [v];
        m[i, v - 1] := 1;
      }
      assert adj[i][..|adj[i]|] == adj[i];
    }
    AdjacencyCells(adj);
  }

  /** The n x n edge-number matrix: start from unset cells; for each node in order and each
      slot j of its adjacency entry, count one more edge and store the count at (i, j). */
  method BuildEdgeNumberMatrix(adj: seq<seq<int>>, n: nat) returns (e: array2<Option<int>>)
    requires n == |adj| && WellFormed(adj)
    ensures fresh(e) && e.Length0 == n && e.Length1 == n
    ensures forall i, j :: 0 <= i < n && 0 <= j < n ==>
      e[i, j] == if j < |adj[i]| then Some(EdgeOffset(adj, i) + j + 1) else None
    ensures forall i, j :: 0 <= i < n && 0 <= j < n ==> e[i, j] == EdgeNumberMatrix(adj)[i][j]
  {
    e := new Option<int>[n, n]((_, _) => None);
    var edgeCount := 0;
    for i := 0 to n
      invariant edgeCount == EdgeOffset(adj, i)
      invariant forall r, j :: 0 <= r < i && 0 <= j < n ==>
        e[r, j] == if j < |adj[r]| then Some(EdgeOffset(adj, r) + j + 1) else None
      invariant forall r, j :: i <= r < n && 0 <= j < n ==> e[r, j] == None
    {
      // the slot index stays a column index because the row is deduplicated and validated
      RowFitsMatrix(adj, i);
      for j := 0 to |adj[i]|
        invariant edgeCount == EdgeOffset(adj, i) + j
        invariant forall r, c :: 0 <= r < i && 0 <= c < n ==>
          e[r, c] == if c < |adj[r]| then Some(EdgeOffset(adj, r) + c + 1) else None
        invariant forall r, c :: i < r < n && 0 <= c < n ==> e[r, c] == None
        invariant forall c :: 0 <= c < n ==>
          e[i, c] == if c < j then Some(EdgeOffset(adj, i) + c + 1) else None
      {
        edgeCount := edgeCount + 1;
        e[i, j] := Some(edgeCount);
      }
      EdgeOffsetStep(adj, i);
    }
    EdgeNumberCells(adj);
  }
}
