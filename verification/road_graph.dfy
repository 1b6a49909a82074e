/** The road graph and the structures derived from it, as values.

    A road node is a 1-based id in 1..n. The adjacency list holds, for the
    node at 0-based position i, the 1-based ids of its neighbours. Every
    derived structure is defined here as a function of the adjacency list;
    the methods that build them step by step are proved equal to these. */
module RoadGraph {
  import opened Wrappers
  import opened SortedSets

  // ---------------------------------------------------------------- validation

  /** A valid road node id is an integer in 1..nRoadNode. */
  predicate IsValidRoadNode(v: int, nRoadNode: int) {
    1 <= v && v <= nRoadNode
  }

  /** Every neighbour in one adjacency entry is a valid road node. */
  predicate NeighboursValid(row: seq<int>, nRoadNode: int) {
    forall v :: v in row ==> IsValidRoadNode(v, nRoadNode)
  }

  /** Every neighbour of every node is a valid road node. */
  predicate ValidRoadGraph(adj: seq<seq<int>>, nRoadNode: int) {
    forall i :: 0 <= i < |adj| ==> NeighboursValid(adj[i], nRoadNode)
  }

  /** Node i (0-based) is the first node with a neighbour that is not a valid road node. */
  predicate FirstInvalidNode(adj: seq<seq<int>>, nRoadNode: int, i: int) {
    0 <= i < |adj| && !NeighboursValid(adj[i], nRoadNode)
    && forall k :: 0 <= k < i ==> NeighboursValid(adj[k], nRoadNode)
  }

  /** Every adjacency entry is sorted ascending with no duplicates. */
  predicate NormalizedRows(adj: seq<seq<int>>) {
    forall i :: 0 <= i < |adj| ==> StrictlyIncreasing(adj[i])
  }

  /** A stored road graph: normalised rows whose neighbours are all node ids of the graph. */
  predicate WellFormed(adj: seq<seq<int>>) {
    NormalizedRows(adj) && ValidRoadGraph(adj, |adj|)
  }

  /** The adjacency list the setter stores for raw neighbour lists. */
  function NormalizeAll(raw: seq<seq<int>>): (adj: seq<seq<int>>)
    ensures |adj| == |raw| && NormalizedRows(adj)
  {
    seq(|raw|, i requires 0 <= i < |raw| => Normalize(raw[i]))
  }

  /** Entry i of the stored list is the raw entry i sorted and deduplicated: it holds exactly
      the members of the raw entry. */
  lemma NormalizeAllEntry(raw: seq<seq<int>>, i: int)
    requires 0 <= i < |raw|
    ensures NormalizeAll(raw)[i] == Normalize(raw[i])
    ensures forall v :: v in NormalizeAll(raw)[i] <==> v in raw[i]
  {
  }

  /** Sorting and deduplicating a row neither adds nor removes an invalid neighbour. */
  lemma NormalizeKeepsValidity(row: seq<int>, nRoadNode: int)
    ensures NeighboursValid(Normalize(row), nRoadNode) <==> NeighboursValid(row, nRoadNode)
  {
  }

  /** Normalising the rows neither adds nor removes an invalid neighbour. */
  lemma NormalizeAllKeepsValidity(raw: seq<seq<int>>, nRoadNode: int)
    ensures ValidRoadGraph(NormalizeAll(raw), nRoadNode) <==> ValidRoadGraph(raw, nRoadNode)
    ensures forall i :: 0 <= i < |raw| ==>
      (NeighboursValid(NormalizeAll(raw)[i], nRoadNode) <==> NeighboursValid(raw[i], nRoadNode))
  {
    forall i | 0 <= i < |raw|
      ensures NeighboursValid(NormalizeAll(raw)[i], nRoadNode) <==> NeighboursValid(raw[i], nRoadNode)
    {
      NormalizeKeepsValidity(raw[i], nRoadNode);
    }
  }

  /** Every neighbour kept after validation is a positive integer node id. */
  lemma ValidNeighboursPositive(adj: seq<seq<int>>, nRoadNode: int)
    requires ValidRoadGraph(adj, nRoadNode)
    ensures forall i, v :: 0 <= i < |adj| && v in adj[i] ==> 0 < v
  {
  }

  /** In a stored road graph each row has at most n entries, so its slot positions are matrix columns. */
  lemma RowFitsMatrix(adj: seq<seq<int>>, i: int)
    requires WellFormed(adj) && 0 <= i < |adj|
    ensures |adj[i]| <= |adj|
  {
    BoundedLength(adj[i], |adj|);
  }

  // ------------------------------------------------------- reverse adjacency

  /** The 0-based positions j < k whose adjacency entry contains node id v, ascending. */
  function Predecessors(adj: seq<seq<int>>, v: int, k: nat): (r: seq<int>)
    requires k <= |adj|
    ensures StrictlyIncreasing(r)
    ensures forall j :: j in r <==> 0 <= j < k && v in adj[j]
  {
    if k == 0 then []
    else
      var before := Predecessors(adj, v, k - 1);
      if v in adj[k - 1] then AppendLarger(before, k - 1); before + [k - 1] else before
  }

  /** The reverse adjacency list: entry t lists, 0-based, the nodes that have node id t+1 as a neighbour. */
  function ReverseAdjacency(adj: seq<seq<int>>): (rev: seq<seq<int>>)
    ensures |rev| == |adj|
  {
    seq(|adj|, t requires 0 <= t < |adj| => Predecessors(adj, t + 1, |adj|))
  }

  /** Reverse consistency: j is listed as a predecessor of node id v exactly when v is a neighbour of j,
      and every reverse entry is sorted with no duplicates. */
  lemma ReverseAdjacencyConsistent(adj: seq<seq<int>>, j: int, v: int)
    requires 0 <= j < |adj| && 1 <= v <= |adj|
    ensures j in ReverseAdjacency(adj)[v - 1] <==> v in adj[j]
    ensures StrictlyIncreasing(ReverseAdjacency(adj)[v - 1])
  {
  }

  /** Node ids of a 0-based index list. */
  function OneBased(s: seq<int>): (r: seq<int>)
    ensures |r| == |s| && forall i :: 0 <= i < |s| ==> r[i] == s[i] + 1
    ensures forall v :: v in r <==> v - 1 in s
    ensures StrictlyIncreasing(s) ==> StrictlyIncreasing(r)
  {
    seq(|s|, i requires 0 <= i < |s| => s[i] + 1)
  }

  /** The reverse adjacency list with each entry converted back to node ids. */
  function ReverseAsNodeIds(adj: seq<seq<int>>): (once: seq<seq<int>>)
    ensures |once| == |adj|
  {
    var rev := ReverseAdjacency(adj);
    seq(|adj|, t requires 0 <= t < |adj| => OneBased(rev[t]))
  }

  /** One membership step of the double reversal: node id v is in the twice-reversed entry of
      node s exactly when it is a neighbour of s. */
  lemma ReverseTwiceMember(adj: seq<seq<int>>, s: int, v: int)
    requires WellFormed(adj) && 0 <= s < |adj|
    ensures v in OneBased(ReverseAdjacency(ReverseAsNodeIds(adj))[s]) <==> v in adj[s]
  {
    var rev, once := ReverseAdjacency(adj), ReverseAsNodeIds(adj);
    if 0 <= v - 1 < |adj| {
      // v-1 in twice[s]  <==>  s+1 in once[v-1]  <==>  s in rev[v-1]  <==>  v in adj[s]
      assert v - 1 in ReverseAdjacency(once)[s] <==> s + 1 in once[v - 1];
      assert s + 1 in once[v - 1] <==> s in rev[v - 1];
    } else {
      assert v !in adj[s] by { assert NeighboursValid(adj[s], |adj|); }
    }
  }

  /** Reversing the graph twice, converting the 0-based predecessor indices back to node ids each
      time, gives back the stored adjacency list. */
  lemma ReverseTwice(adj: seq<seq<int>>, s: int)
    requires WellFormed(adj) && 0 <= s < |adj|
    ensures OneBased(ReverseAdjacency(ReverseAsNodeIds(adj))[s]) == adj[s]
  {
    var back := OneBased(ReverseAdjacency(ReverseAsNodeIds(adj))[s]);
    forall v
      ensures v in back <==> v in adj[s]
    {
      ReverseTwiceMember(adj, s, v);
    }
    SameMembersSameList(back, adj[s]);
  }

  // -------------------------------------------------------- adjacency matrix

  /** Row i of the 0/1 adjacency matrix over `cols` columns: column k is 1 exactly when node id k+1 is a neighbour. */
  function AdjacencyRow(row: seq<int>, cols: nat): (r: seq<int>)
    ensures |r| == cols
  {
    seq(cols, k requires 0 <= k < cols => if k + 1 in row then 1 else 0)
  }

  /** The N x N 0/1 adjacency matrix of the graph, N = |adj|. */
  function AdjacencyMatrix(adj: seq<seq<int>>): (m: seq<seq<int>>)
    ensures |m| == |adj| && forall i :: 0 <= i < |adj| ==> |m[i]| == |adj|
  {
    seq(|adj|, i requires 0 <= i < |adj| => AdjacencyRow(adj[i], |adj|))
  }

  /** Cell (i, k) of the adjacency matrix, by position: 1 exactly when node id k+1 is a neighbour of i. */
  lemma AdjacencyCells(adj: seq<seq<int>>)
    ensures forall i, k :: 0 <= i < |adj| && 0 <= k < |adj| ==>
      AdjacencyMatrix(adj)[i][k] == if k + 1 in adj[i] then 1 else 0
  {
  }

  /** The matrix and the reverse list record the same edges: cell (i, k) is 1 exactly when
      node i is listed as a predecessor of node id k+1, and 0 otherwise. */
  lemma MatrixMatchesReverse(adj: seq<seq<int>>, i: int, k: int)
    requires 0 <= i < |adj| && 0 <= k < |adj|
    ensures AdjacencyMatrix(adj)[i][k] == if i in ReverseAdjacency(adj)[k] then 1 else 0
  {
    ReverseAdjacencyConsistent(adj, i, k + 1);
  }

  /** The number of cells equal to 1 in one matrix row. */
  function Ones(row: seq<int>): nat {
    if row == [] then 0 else Ones(row[..|row| - 1]) + (if row[|row| - 1] == 1 then 1 else 0)
  }

  /** The number of cells equal to 1 in a matrix. */
  function MatrixOnes(m: seq<seq<int>>): nat {
    if m == [] then 0 else MatrixOnes(m[..|m| - 1]) + Ones(m[|m| - 1])
  }

  // ------------------------------------------------- outdegree and edge count

  /** The sum of a list of integers. */
  function Sum(s: seq<nat>): nat {
    if s == [] then 0 else Sum(s[..|s| - 1]) + s[|s| - 1]
  }

  /** The out-degree of every node: the length of its adjacency entry. */
  function Outdegree(adj: seq<seq<int>>): (deg: seq<nat>)
    ensures |deg| == |adj|
  {
    seq(|adj|, i requires 0 <= i < |adj| => |adj[i]|)
  }

  /** The number of road edges: the sum of the out-degrees. */
  function EdgeCount(adj: seq<seq<int>>): nat {
    Sum(Outdegree(adj))
  }

  /** The number of edges that belong to the nodes before position i. */
  function EdgeOffset(adj: seq<seq<int>>, i: nat): nat
    requires i <= |adj|
  {
    Sum(Outdegree(adj)[..i])
  }

  /** Taking one more node adds its out-degree to the edges numbered before it. */
  lemma EdgeOffsetStep(adj: seq<seq<int>>, i: nat)
    requires i < |adj|
    ensures EdgeOffset(adj, i + 1) == EdgeOffset(adj, i) + |adj[i]|
  {
    assert Outdegree(adj)[..i + 1][..i] == Outdegree(adj)[..i];
  }

  /** In a row over values 1..cols, the number of 1 cells is the number of neighbours. */
  lemma {:induction false} RowOnesCount(row: seq<int>, cols: nat)
    requires StrictlyIncreasing(row) && NeighboursValid(row, cols)
    ensures Ones(AdjacencyRow(row, cols)) == |row|
  {
    if cols == 0 {
      BoundedLength(row, 0);
    } else {
      var r := AdjacencyRow(row, cols);
      if cols in row {
        var last := row[|row| - 1];
        var k :| 0 <= k < |row| && row[k] == cols;
        assert row[k] <= last && last in row;
        var shorter := row[..|row| - 1];
        assert forall v :: v in shorter <==> v in row && v != cols by {
          assert forall v :: v in shorter ==> v < last;
          assert row == shorter + [last];
        }
        assert r[..cols - 1] == AdjacencyRow(shorter, cols - 1);
        RowOnesCount(shorter, cols - 1);
      } else {
        assert r[..cols - 1] == AdjacencyRow(row, cols - 1);
        RowOnesCount(row, cols - 1);
      }
    }
  }

  /** The adjacency matrix holds exactly as many 1 cells as the graph has edges; rows
      with repeated neighbours would break this, so it rests on the normalised rows. */
  lemma MatrixOnesIsEdgeCount(adj: seq<seq<int>>)
    requires WellFormed(adj)
    ensures MatrixOnes(AdjacencyMatrix(adj)) == EdgeCount(adj)
  {
    MatrixOnesPrefix(adj, |adj|);
    assert Outdegree(adj)[..|adj|] == Outdegree(adj);
    assert AdjacencyMatrix(adj)[..|adj|] == AdjacencyMatrix(adj);
  }

  /** The first k rows of the adjacency matrix hold as many 1 cells as the first k nodes have edges. */
  lemma {:induction false} MatrixOnesPrefix(adj: seq<seq<int>>, k: nat)
    requires WellFormed(adj) && k <= |adj|
    ensures MatrixOnes(AdjacencyMatrix(adj)[..k]) == EdgeOffset(adj, k)
  {
    if k > 0 {
      var m := AdjacencyMatrix(adj);
      assert m[..k][..k - 1] == m[..k - 1];
      MatrixOnesPrefix(adj, k - 1);
      RowOnesCount(adj[k - 1], |adj|);
      EdgeOffsetStep(adj, k - 1);
    }
  }

  // ----------------------------------------------------- edge-number matrix

  /** One row of the edge-number matrix over `cols` columns for a node with `degree` neighbours
      whose edges follow `offset` earlier ones: slot j < degree holds offset + j + 1, the rest are unset.
      The column is the slot position within the row, not the neighbour's node id. */
  function NumberedRow(offset: int, degree: nat, cols: nat): (r: seq<Option<int>>)
    ensures |r| == cols
  {
    seq(cols, j requires 0 <= j < cols => if j < degree then Some(offset + j + 1) else None)
  }

  /** The N x N edge-number matrix of the graph. */
  function EdgeNumberMatrix(adj: seq<seq<int>>): (e: seq<seq<Option<int>>>)
    ensures |e| == |adj|
  {
    seq(|adj|, i requires 0 <= i < |adj| => NumberedRow(EdgeOffset(adj, i), |adj[i]|, |adj|))
  }

  /** Cell (i, j) of the edge-number matrix, by position: set to the next edge number exactly
      in the first outdegree(i) slots of row i. */
  lemma EdgeNumberCells(adj: seq<seq<int>>)
    ensures forall i, j :: 0 <= i < |adj| && 0 <= j < |adj| ==>
      EdgeNumberMatrix(adj)[i][j] == if j < |adj[i]| then Some(EdgeOffset(adj, i) + j + 1) else None
  {
  }

  /** The values of the set cells of a row, left to right. */
  function SetCells(row: seq<Option<int>>): seq<int> {
    if row == [] then []
    else SetCells(row[..|row| - 1]) + (match row[|row| - 1] case Some(x) => [x] case None => [])
  }

  /** The values of the set cells of a matrix, read row-major. */
  function RowMajor(m: seq<seq<Option<int>>>): seq<int> {
    if m == [] then [] else RowMajor(m[..|m| - 1]) + SetCells(m[|m| - 1])
  }

  /** The `count` consecutive integers from `first` on. */
  function Consecutive(first: int, count: nat): (r: seq<int>)
    ensures |r| == count
  {
    seq(count, k requires 0 <= k < count => first + k)
  }

  /** A numbered row that fits its columns reads as offset+1 .. offset+degree. */
  lemma {:induction false} NumberedRowCells(offset: int, degree: nat, cols: nat)
    requires degree <= cols
    ensures SetCells(NumberedRow(offset, degree, cols)) == Consecutive(offset + 1, degree)
  {
    if cols > 0 {
      var r := NumberedRow(offset, degree, cols);
      if degree == cols {
        assert r[..cols - 1] == NumberedRow(offset, degree - 1, cols - 1);
        NumberedRowCells(offset, degree - 1, cols - 1);
        assert Consecutive(offset + 1, degree) == Consecutive(offset + 1, degree - 1) + [offset + degree];
      } else {
        assert r[..cols - 1] == NumberedRow(offset, degree, cols - 1);
        NumberedRowCells(offset, degree, cols - 1);
      }
    }
  }

  /** The first k rows of the edge-number matrix read, row-major, as 1 .. EdgeOffset(adj, k). */
  lemma {:induction false} EdgeNumbersPrefix(adj: seq<seq<int>>, k: nat)
    requires WellFormed(adj) && k <= |adj|
    ensures RowMajor(EdgeNumberMatrix(adj)[..k]) == Consecutive(1, EdgeOffset(adj, k))
  {
    if k > 0 {
      var e := EdgeNumberMatrix(adj);
      var before, degree := EdgeOffset(adj, k - 1), |adj[k - 1]|;
      calc {
        RowMajor(e[..k]);
      ==  { assert e[..k][..k - 1] == e[..k - 1]; }
        RowMajor(e[..k - 1]) + SetCells(e[k - 1]);
      ==  { EdgeNumbersPrefix(adj, k - 1); EdgeRowCells(adj, k - 1); }
        Consecutive(1, before) + Consecutive(before + 1, degree);
      ==  { ConsecutiveSplit(1, before, degree); }
        Consecutive(1, before + degree);
      ==  { EdgeOffsetStep(adj, k - 1); }
        Consecutive(1, EdgeOffset(adj, k));
      }
    }
  }

  /** The set cells of row i of the edge-number matrix are the numbers of that node's edges. */
  lemma EdgeRowCells(adj: seq<seq<int>>, i: nat)
    requires WellFormed(adj) && i < |adj|
    ensures SetCells(EdgeNumberMatrix(adj)[i]) == Consecutive(EdgeOffset(adj, i) + 1, |adj[i]|)
  {
    RowFitsMatrix(adj, i);
    NumberedRowCells(EdgeOffset(adj, i), |adj[i]|, |adj|);
  }

  /** Consecutive runs concatenate. */
  lemma ConsecutiveSplit(first: int, a: nat, b: nat)
    ensures Consecutive(first, a + b) == Consecutive(first, a) + Consecutive(first + a, b)
  {
  }

  /** Read row-major, the set cells of the edge-number matrix are exactly 1 .. EdgeCount(adj),
      increasing, with no gap and no repeat; so the number of set cells is the edge count. */
  lemma EdgeNumbersConsecutive(adj: seq<seq<int>>)
    requires WellFormed(adj)
    ensures RowMajor(EdgeNumberMatrix(adj)) == Consecutive(1, EdgeCount(adj))
    ensures |RowMajor(EdgeNumberMatrix(adj))| == EdgeCount(adj)
  {
    EdgeNumbersPrefix(adj, |adj|);
    assert Outdegree(adj)[..|adj|] == Outdegree(adj);
    assert EdgeNumberMatrix(adj)[..|adj|] == EdgeNumberMatrix(adj);
  }
}
