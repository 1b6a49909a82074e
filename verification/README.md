# EAMoD spec: road-graph construction, in Dafny

The EAMoD spec object collects the static inputs of an electric autonomous
mobility-on-demand optimiser. This project models the part of it that has
real logic, `EAMoDspec` in `eamod_spec/EAmodSpec.py`. That part does the following:

- It stores each node's neighbour list sorted and deduplicated.
- It checks that every neighbour is a valid 1-based road node id.
- It derives four things from the adjacency list:
  - the reverse adjacency list, whose entries are 0-based predecessor indices;
  - the N x N 0/1 adjacency matrix;
  - the out-degree vector and the road-edge count;
  - the edge-number matrix. Its column is the neighbour's slot position in the row, not the neighbour's node id.
- It allocates the all-zero initial vehicle-state tensors.

Files:

- `wrappers.dfy`: `Option` (a NaN cell is `None`), `Result` and `Outcome`.
- `sorted_sets.dfy`: `Normalize`, which is `sorted(list(set(xs)))`, and facts about sorted duplicate-free lists.
  The main fact is that such a list is determined by its members.
- `road_graph.dfy`: validation and every derived structure, written as functions of the
  adjacency list. It also holds the laws that relate them.
- `derivation.dfy`: the nested loops of `update_properties_dependent_on_road_graph`.
  They append to lists, set array cells and count edges. Each loop's result is proved equal to the matching function in `road_graph.dfy`.
  For the two matrices this holds cell by cell.
- `eamod_spec.dfy`: the class `EAMoDSpec`. Its fields are filled in step by step, as `initialize_parameters` fills them.

How the model represents the source:

- Node ids are 1-based. Row, column and reverse-list indices are 0-based, as in the source.
- Each matrix is an `array2`: `int` cells for the adjacency matrix, `Option<int>` cells for the edge-number matrix.
- The tensors are `array2<real>` and `array3<real>` filled with `0.0`, because `np.zeros` makes floats.
- The configuration has already been parsed. The adjacency section is the sequence of neighbour lists, in section order.
  The section's keys (node labels) are not used by the source.

## Model

| member | source | states |
|---|---|---|
| SortedSets.Normalize | eamod_spec/EAmodSpec.py:167 | the stored entry is strictly increasing (sorted, no duplicates) and has exactly the members of the raw list |
| SortedSets.SameMembersSameList | eamod_spec/EAmodSpec.py:167 | two sorted duplicate-free lists with the same members are equal, so `Normalize` is the only result `sorted(list(set(x)))` can give |
| SortedSets.NormalizeSorted | eamod_spec/EAmodSpec.py:196-198 | sorting and deduplicating a list that is already sorted and duplicate-free leaves it unchanged |
| SortedSets.BoundedLength | eamod_spec/EAmodSpec.py:167 | a sorted duplicate-free list of values in 1..n has at most n entries |
| RoadGraph.NormalizeAll | eamod_spec/EAmodSpec.py:165-167 | one entry per configured node; every entry is strictly increasing (sorted, no duplicates), as `Normalize` makes it |
| RoadGraph.NormalizeAllEntry | eamod_spec/EAmodSpec.py:165-167 | stored entry i is `Normalize` of raw entry i, so it holds exactly the members of the configured list of node i |
| RoadGraph.IsValidRoadNode | eamod_spec/EAmodSpec.py:169-178 | a node id is valid exactly when 1 <= id <= n_road_node |
| RoadGraph.NeighboursValid | eamod_spec/EAmodSpec.py:183-185 | every neighbour in one adjacency entry is a valid road node, the `all(...)` test of one node |
| RoadGraph.ValidRoadGraph | eamod_spec/EAmodSpec.py:180-185 | the test holds for every node of the adjacency list |
| RoadGraph.FirstInvalidNode | eamod_spec/EAmodSpec.py:182-185 | node i fails the test and every earlier node passes it, so i is the node the loop's first failing assertion names |
| RoadGraph.NormalizeAllKeepsValidity | eamod_spec/EAmodSpec.py:53-55 | validating the stored (normalised) list accepts or rejects each node exactly as validating the raw lists would |
| RoadGraph.ValidNeighboursPositive | tests/test_unit.py:27-34 | after validation, every stored neighbour is a positive integer |
| RoadGraph.RowFitsMatrix | eamod_spec/EAmodSpec.py:216-219 | in a deduplicated and validated graph every row has at most N entries, so each slot index j is a column of the N x N matrix |
| RoadGraph.Predecessors | eamod_spec/EAmodSpec.py:192-194 | the predecessors collected from nodes 0..k-1 are exactly the j < k whose entry holds the node id, in increasing order |
| RoadGraph.ReverseAdjacency | eamod_spec/EAmodSpec.py:189-198 | one entry per node; entry t is `Predecessors` of node id t+1 over all nodes, the ascending 0-based nodes that have t+1 as a neighbour |
| RoadGraph.ReverseAdjacencyConsistent | eamod_spec/EAmodSpec.py:189-198 | for 0-based j and node id v in 1..N, j is in reverse[v-1] iff v is in adj[j]; each reverse entry is sorted with no duplicates; the reverse list has N entries |
| RoadGraph.ReverseTwiceMember | eamod_spec/EAmodSpec.py:189-198 | a node id is in the twice-reversed entry of node s iff it is a neighbour of s |
| RoadGraph.ReverseTwice | eamod_spec/EAmodSpec.py:189-198 | reversing twice, converting the 0-based predecessor indices to node ids each time, gives back the adjacency list |
| RoadGraph.AdjacencyMatrix | eamod_spec/EAmodSpec.py:200-205 | an N x N matrix whose cell (i, k) is 1 when node id k+1 is a neighbour of node i and 0 otherwise |
| RoadGraph.MatrixMatchesReverse | eamod_spec/EAmodSpec.py:189-205 | the matrix and the reverse list record the same edges: cell (i, k) is 1 exactly when i is in reverse[k] |
| RoadGraph.Outdegree | eamod_spec/EAmodSpec.py:207-210 | one entry per node; entry i is the length of adjacency entry i |
| RoadGraph.EdgeCount | eamod_spec/EAmodSpec.py:211 | the road-edge count is the sum of the out-degrees |
| RoadGraph.EdgeNumberMatrix | eamod_spec/EAmodSpec.py:213-219 | an N x N matrix; row i holds, in slots 0..outdegree(i)-1, the numbers after the edges of earlier nodes, and NaN (`None`) after that |
| RoadGraph.EdgeOffsetStep | eamod_spec/EAmodSpec.py:215-219 | the running edge counter grows by the node's out-degree from one node to the next |
| RoadGraph.RowOnesCount | eamod_spec/EAmodSpec.py:201-203 | in one deduplicated, validated row, the number of 1 cells of its matrix row equals the number of neighbours |
| RoadGraph.MatrixOnesIsEdgeCount | eamod_spec/EAmodSpec.py:201-212 | the number of 1 cells in the adjacency matrix equals the sum of the out-degrees, which is the road-edge count |
| RoadGraph.NumberedRowCells | eamod_spec/EAmodSpec.py:217-219 | one node's row of the edge-number matrix reads, left to right, offset+1 .. offset+out-degree |
| RoadGraph.EdgeNumbersConsecutive | eamod_spec/EAmodSpec.py:213-219 | read row-major, the set cells of the edge-number matrix are exactly 1..n_road_edge, increasing, with no gap or repeat; so the number of set cells is the edge count |
| Derivation.BuildReverseAdjacencyList | eamod_spec/EAmodSpec.py:189-198 | the append loop followed by the sort-and-deduplicate pass yields exactly the reverse adjacency list |
| Derivation.BuildAdjacencyMatrix | eamod_spec/EAmodSpec.py:190-205 | a fresh N x N matrix whose cell (i, k) is 1 if node id k+1 is a neighbour of node i, and 0 otherwise; cell for cell it equals `AdjacencyMatrix`, so `MatrixOnesIsEdgeCount` applies to it |
| Derivation.BuildEdgeNumberMatrix | eamod_spec/EAmodSpec.py:213-219 | a fresh N x N matrix; cell (i, j) is set iff j < out-degree(i), and then holds (sum of out-degrees before i) + j + 1; cell for cell it equals `EdgeNumberMatrix`, so `EdgeNumbersConsecutive` applies to it; every write is in bounds |
| EAmodSpec.EAMoDSpec.constructor | eamod_spec/EAmodSpec.py:12-41 | a spec with an empty adjacency list, empty reverse list and out-degrees, zero counts, and fresh matrices and tensors whose every dimension is 0 |
| EAmodSpec.EAMoDSpec.SetRoadAdjacencyList | eamod_spec/EAmodSpec.py:158-167 | appends the normalised neighbour list of every configured node, in order, and changes no other field |
| EAmodSpec.EAMoDSpec.ValidateRoadGraph | eamod_spec/EAmodSpec.py:169-185 | passes iff every neighbour of every node is in 1..n_road_node; otherwise fails naming the first 0-based node that has an invalid neighbour |
| EAmodSpec.EAMoDSpec.InitializeVehicleStates | eamod_spec/EAmodSpec.py:69-78 | the empty-vehicle state is a fresh all-zero tensor of shape (n_road_node, n_charge_steps); the full-vehicle state is a fresh all-zero tensor of shape (n_passanger_flow, n_road_node, n_charge_steps) |
| EAmodSpec.EAMoDSpec.UpdatePropertiesDependentOnRoadGraph | eamod_spec/EAmodSpec.py:187-219 | the reverse list, matrix, out-degrees (outdegree[i] = len(adj[i])), edge count (their sum) and edge-number matrix all agree with the adjacency list; the list itself is unchanged |
| EAmodSpec.EAMoDSpec.InitializeParameters | eamod_spec/EAmodSpec.py:43-86 | succeeds iff the normalised graph is valid and the tensor dimensions are non-negative. Otherwise it fails, naming the first invalid node or the negative dimension. On success it holds the normalised list, the configured counts, the derived structures and the zero tensors; the spec, both matrices and both tensors are freshly allocated, so they alias no array of the caller |

## Left out

- Reading the configuration file and the `ast.literal_eval` of list and matrix strings (eamod_spec/EAmodSpec.py:53, 93-96, 166, 230-235). These are library calls. The model starts from integer lists that are already parsed.
- The `isinstance(i, int)` test of `is_valid_road_node`. Every Dafny `int` passes it, and Python's `bool`-is-`int` quirk is not modelled.
- `set_n_vehicle` (eamod_spec/EAmodSpec.py:221-226). Python's builtin `sum` over numpy arrays reduces along the first axis and broadcasts the two partial sums into an array of float zeros, not a scalar. The model only states that both tensors are all zero.
- `set_road_capacity_matrix` (eamod_spec/EAmodSpec.py:92-96). The capacity matrix is loaded verbatim with no checks. Its non-negativity is only an assertion about the test data.
- The charger, travel-time, distance and charge-to-traverse fields. They are declared but never computed.
- The trivial property getters and setters. Each one is a plain field read or assignment in the model.
- EAmodSpec.EAMoDSpec.InitializeParameters: requires the configured `n_road_node` to equal the number of configured nodes. The mismatched cases are not modelled:
  - Validation runs before the configured value is read, with `n_road_node` set to the number of configured nodes (eamod_spec/EAmodSpec.py:54-57). Every neighbour that passes is therefore at most the number of configured nodes.
  - When `n_road_node` is larger, the reverse list is built without error. The matrix loop then raises a list `IndexError` at `self.road_adjacency_list[i]` once `i` reaches the number of configured nodes (eamod_spec/EAmodSpec.py:202).
  - When `n_road_node` is smaller, three outcomes are possible:
    - A negative `n_road_node` makes `np.zeros` raise `ValueError` (eamod_spec/EAmodSpec.py:69-71), before any derived structure is built.
    - A neighbour id above `n_road_node` in one of the first `n_road_node` rows raises a numpy `IndexError` at the matrix write (eamod_spec/EAmodSpec.py:203). An example is `[[3], [1], [1]]` with `n_road_node` 2. The edge-number write (eamod_spec/EAmodSpec.py:219) never fails this way. Rows are deduplicated, so a row with more than `n_road_node` neighbours holds an id above `n_road_node`. The matrix loop therefore raises first, and it finishes before the edge-number loop starts.
    - Otherwise the run completes. The reverse list still has one entry per configured node (eamod_spec/EAmodSpec.py:189, 192), while the matrices and out-degrees cover only the first `n_road_node` nodes, so the structures disagree with each other.
- The unset attributes (`None`) of a freshly constructed spec are modelled as `0` and empty sequences and arrays.
- numpy float and NaN mechanics. A NaN cell of the edge-number matrix is `None`, and its numbers are integers.
- A negative `np.zeros` dimension raises `ValueError`. It is modelled as the `NegativeDimension` failure, without the exception's message.
- Validation is a bare `assert` (eamod_spec/EAmodSpec.py:183-185), which Python drops under `-O`. The model always validates. Without validation, a neighbour 0 would be appended silently to the last reverse entry and would set the last matrix column (`[-1]` indexing). A neighbour above the node count would raise `IndexError`. Neither case is modelled.
- Python's `AssertionError` from validation. It is modelled as the `InvalidNeighbours(i)` failure, where `i` is the 0-based node the message names.
- EAmodSpec.EAMoDSpec.UpdatePropertiesDependentOnRoadGraph: its postcondition (`RoadGraphDerived`) ties each array cell to a formula over the adjacency list. The `Build` methods of `Derivation` state the equality with `AdjacencyMatrix` and `EdgeNumberMatrix`, through `AdjacencyCells` and `EdgeNumberCells`. The counting laws (`MatrixOnesIsEdgeCount`, `EdgeNumbersConsecutive`) are stated on those functions and are not repeated on the stored arrays.
