/** The spec object of the EAMoD model: the road graph as loaded, the structures derived
    from it, and the initial vehicle-state tensors, filled in one step after another. */
module EAmodSpec {
  import opened Wrappers
  import opened SortedSets
  import opened RoadGraph
  import Derivation

  /** Why building the spec stops: a neighbour that is not a road node (the assertion of the
      graph validation, naming the 0-based node), or a tensor shape with a negative dimension. */
  datatype SpecError = InvalidNeighbours(node: nat) | NegativeDimension

  class EAMoDSpec {
    var roadAdjacencyList: seq<seq<int>>
    var nRoadNode: int
    var nChargeSteps: int
    var nPassangerFlow: int
    var initialStateEmptyVehicles: array2<real>
    var initialStateFullVehicles: array3<real>
    var roadAdjacencyMatrix: array2<int>
    var roadReverseAdjacencyList: seq<seq<int>>
    var roadNodeOutdegree: seq<nat>
    var nRoadEdge: nat
    var edgeNumberMatrix: array2<Option<int>>

    /** Every structure derived from the road graph agrees with the adjacency list: the reverse
        list and the counts as values, the two matrices cell by cell. */
    ghost predicate RoadGraphDerived()
      reads this, roadAdjacencyMatrix, edgeNumberMatrix
    {
      nRoadNode == |roadAdjacencyList| && WellFormed(roadAdjacencyList)
      && roadReverseAdjacencyList == ReverseAdjacency(roadAdjacencyList)
      && roadAdjacencyMatrix.Length0 == nRoadNode && roadAdjacencyMatrix.Length1 == nRoadNode
      && (forall i, k :: 0 <= i < nRoadNode && 0 <= k < nRoadNode ==>
            roadAdjacencyMatrix[i, k] == if k + 1 in roadAdjacencyList[i] then 1 else 0)
      && roadNodeOutdegree == Outdegree(roadAdjacencyList)
      && nRoadEdge == Sum(roadNodeOutdegree)
      && edgeNumberMatrix.Length0 == nRoadNode && edgeNumberMatrix.Length1 == nRoadNode
      && (forall i, j :: 0 <= i < nRoadNode && 0 <= j < nRoadNode ==>
            edgeNumberMatrix[i, j] ==
              if j < roadNodeOutdegree[i] then Some(EdgeOffset(roadAdjacencyList, i) + j + 1) else None)
    }

    /** The initial vehicle states: all-zero tensors of shape (nodes, charge steps) for empty
        vehicles and (passenger flows, nodes, charge steps) for full ones. */
    ghost predicate VehicleStatesInitial()
      reads this`initialStateEmptyVehicles, this`initialStateFullVehicles
      reads this`nRoadNode, this`nChargeSteps, this`nPassangerFlow
      reads initialStateEmptyVehicles, initialStateFullVehicles
    {
      var empty, full := initialStateEmptyVehicles, initialStateFullVehicles;
      empty.Length0 == nRoadNode && empty.Length1 == nChargeSteps
      && (forall i, c :: 0 <= i < empty.Length0 && 0 <= c < empty.Length1 ==> empty[i, c] == 0.0)
      && full.Length0 == nPassangerFlow && full.Length1 == nRoadNode && full.Length2 == nChargeSteps
      && (forall f, i, c :: 0 <= f < full.Length0 && 0 <= i < full.Length1 && 0 <= c < full.Length2
            ==> full[f, i, c] == 0.0)
    }

    /** The matrices and tensors have not been allocated yet: every dimension is 0. */
    ghost predicate ArraysEmpty()
      reads this
    {
      roadAdjacencyMatrix.Length0 == 0 && roadAdjacencyMatrix.Length1 == 0
      && edgeNumberMatrix.Length0 == 0 && edgeNumberMatrix.Length1 == 0
      && initialStateEmptyVehicles.Length0 == 0 && initialStateEmptyVehicles.Length1 == 0
      && initialStateFullVehicles.Length0 == 0 && initialStateFullVehicles.Length1 == 0
      && initialStateFullVehicles.Length2 == 0
    }

    /** A spec with nothing loaded yet (the source's unset attributes become empty values and 0). */
    constructor ()
      ensures roadAdjacencyList == [] && roadReverseAdjacencyList == [] && roadNodeOutdegree == []
      ensures nRoadNode == 0 && nRoadEdge == 0 && nChargeSteps == 0 && nPassangerFlow == 0
      ensures fresh(roadAdjacencyMatrix) && fresh(edgeNumberMatrix)
      ensures fresh(initialStateEmptyVehicles) && fresh(initialStateFullVehicles)
      ensures ArraysEmpty()
    {
      roadAdjacencyList, roadReverseAdjacencyList, roadNodeOutdegree := [], [], [];
      nRoadNode, nRoadEdge, nChargeSteps, nPassangerFlow := 0, 0, 0, 0;
      roadAdjacencyMatrix := new int[0, 0];
      edgeNumberMatrix := new Option<int>[0, 0];
      initialStateEmptyVehicles := new real[0, 0];
      initialStateFullVehicles := new real[0, 0, 0];
    }

    /** The adjacency-list setter: appends, for every configured node in order, its neighbour
        list sorted ascending with duplicates removed. */
    method SetRoadAdjacencyList(value: seq<seq<int>>)
      modifies this`roadAdjacencyList
      ensures roadAdjacencyList == old(roadAdjacencyList) + NormalizeAll(value)
    {
      for k := 0 to |value|
        invariant roadAdjacencyList == old(roadAdjacencyList) + NormalizeAll(value[..k])
      {
        assert NormalizeAll(value[..k + 1]) == NormalizeAll(value[..k]) + [Normalize(value[k])];
        roadAdjacencyList := roadAdjacencyList + [Normalize(value[k])];
      }
      assert value[..|value|] == value;
    }

    /** Checks, node by node, that every neighbour is a valid road node; stops at the first
        node that has an invalid neighbour and names its 0-based index. */
    method ValidateRoadGraph() returns (r: Outcome<SpecError>)
      ensures r.Pass? <==> ValidRoadGraph(roadAdjacencyList, nRoadNode)
      ensures r.Fail? ==>
        r.error.InvalidNeighbours? && FirstInvalidNode(roadAdjacencyList, nRoadNode, r.error.node)
    {
      for i := 0 to |roadAdjacencyList|
        invariant forall k :: 0 <= k < i ==> NeighboursValid(roadAdjacencyList[k], nRoadNode)
      {
        if !NeighboursValid(roadAdjacencyList[i], nRoadNode) {
          return Fail(InvalidNeighbours(i));
        }
      }
      return Pass;
    }

    /** Allocates the initial vehicle states as all-zero tensors: (nodes, charge steps) for
        empty vehicles, (passenger flows, nodes, charge steps) for full ones. */
    method InitializeVehicleStates()
      requires 0 <= nRoadNode && 0 <= nChargeSteps && 0 <= nPassangerFlow
      modifies this`initialStateEmptyVehicles, this`initialStateFullVehicles
      ensures fresh(initialStateEmptyVehicles) && fresh(initialStateFullVehicles)
      ensures VehicleStatesInitial()
    {
      initialStateEmptyVehicles := new real[nRoadNode, nChargeSteps]((_, _) => 0.0);
      initialStateFullVehicles := new real[nPassangerFlow, nRoadNode, nChargeSteps]((_, _, _) => 0.0);
    }

    /** Computes the reverse adjacency list, the adjacency matrix, the out-degrees, the edge
        count and the edge-number matrix from the validated adjacency list. */
    method UpdatePropertiesDependentOnRoadGraph()
      requires nRoadNode == |roadAdjacencyList| && WellFormed(roadAdjacencyList)
      modifies this`roadReverseAdjacencyList, this`roadAdjacencyMatrix, this`roadNodeOutdegree
      modifies this`nRoadEdge, this`edgeNumberMatrix
      ensures fresh(roadAdjacencyMatrix) && fresh(edgeNumberMatrix)
      ensures RoadGraphDerived()
    {
      var n := nRoadNode;
      roadReverseAdjacencyList := Derivation.BuildReverseAdjacencyList(roadAdjacencyList);
      var matrix := Derivation.BuildAdjacencyMatrix(roadAdjacencyList, n);
      roadAdjacencyMatrix := matrix;
      roadNodeOutdegree := Outdegree(roadAdjacencyList);
      nRoadEdge := Sum(roadNodeOutdegree);
      var numbers := Derivation.BuildEdgeNumberMatrix(roadAdjacencyList, n);
      edgeNumberMatrix := numbers;
    }

    /** Builds the spec from the parsed configuration: the raw neighbour lists of the nodes in
        configuration order, the node count, the charge-step count and the passenger-flow count.
        The graph is validated against its own length, then the tensors are allocated and the
        road-graph structures derived. */
    static method InitializeParameters(
      roadAdjacencyConfig: seq<seq<int>>, nRoadNodeConfig: int,
      nChargeStepsConfig: int, nPassangerFlowConfig: int)
      returns (r: Result<EAMoDSpec, SpecError>)
      requires nRoadNodeConfig == |roadAdjacencyConfig|
      ensures r.Success? <==>
        ValidRoadGraph(NormalizeAll(roadAdjacencyConfig), nRoadNodeConfig)
        && 0 <= nChargeStepsConfig && 0 <= nPassangerFlowConfig
      ensures r.Failure? ==>
        match r.error
        case InvalidNeighbours(i) => FirstInvalidNode(NormalizeAll(roadAdjacencyConfig), nRoadNodeConfig, i)
        case NegativeDimension =>
          ValidRoadGraph(NormalizeAll(roadAdjacencyConfig), nRoadNodeConfig)
          && (nChargeStepsConfig < 0 || nPassangerFlowConfig < 0)
      ensures r.Success? ==>
        var spec := r.value;
        fresh(spec) && fresh(spec.initialStateEmptyVehicles) && fresh(spec.initialStateFullVehicles)
        && fresh(spec.roadAdjacencyMatrix) && fresh(spec.edgeNumberMatrix)
        && spec.roadAdjacencyList == NormalizeAll(roadAdjacencyConfig)
        && spec.nRoadNode == nRoadNodeConfig && spec.nChargeSteps == nChargeStepsConfig
        && spec.nPassangerFlow == nPassangerFlowConfig
        && spec.RoadGraphDerived() && spec.VehicleStatesInitial()
    {
      var spec := new EAMoDSpec();
      spec.SetRoadAdjacencyList(roadAdjacencyConfig);
      ghost var stored := spec.roadAdjacencyList;
      assert stored == NormalizeAll(roadAdjacencyConfig);
      spec.nRoadNode := |spec.roadAdjacencyList|;
      var valid := spec.ValidateRoadGraph();
      if valid.Fail? {
        assert spec.nRoadNode == nRoadNodeConfig;
        assert FirstInvalidNode(stored, nRoadNodeConfig, valid.error.node);
        assert !ValidRoadGraph(stored, nRoadNodeConfig);
        return Failure(valid.error);
      }
      assert ValidRoadGraph(stored, nRoadNodeConfig);
      spec.nRoadNode := nRoadNodeConfig;
      spec.nChargeSteps := nChargeStepsConfig;
      spec.nPassangerFlow := nPassangerFlowConfig;
      if spec.nRoadNode < 0 || spec.nChargeSteps < 0 || spec.nPassangerFlow < 0 {
        return Failure(NegativeDimension);
      }
      spec.InitializeVehicleStates();
      spec.UpdatePropertiesDependentOnRoadGraph();
      assert spec.roadAdjacencyList == stored;
      return Success(spec);
    }
  }
}
