/** The problem instance handed to the routing solver, and the transit-cost
    callback the solver evaluates on it.

    The solver's routing indices for one vehicle whose start and end are both
    the depot are 0 .. N - 1 for the N places, plus one extra index N for
    the vehicle's end, which stands for the depot again. */
module DataModel {
  import opened Places
  import opened Distances

  /** The dictionary `create_data_model` returns. */
  datatype DataModel = DataModel(
    places: seq<Place>,
    distanceMatrix: seq<seq<int>>,
    numVehicles: nat,
    depot: nat)

  /** The shape the solver and the renderers rely on: at least one place
      (the index manager needs a depot node), a square matrix with one row
      per place, one vehicle and depot 0. */
  predicate WellShaped(data: DataModel)
  {
    && |data.places| >= 1
    && IsSquare(data.distanceMatrix, |data.places|)
    && data.numVehicles == 1
    && data.depot == 0
  }

  /** A data model as `create_data_model` builds it from at least one place. */
  predicate ValidModel(data: DataModel)
  {
    && WellShaped(data)
    && IsDistanceMatrixOf(data.distanceMatrix, CoordsOf(data.places))
  }

  /** `create_data_model`, from the places the input file holds: the places
      in input order, their distance matrix, one vehicle and depot 0. */
  method CreateDataModel(places: seq<Place>) returns (data: DataModel)
    ensures data.places == places
    ensures |data.distanceMatrix| == |places|
    ensures IsDistanceMatrixOf(data.distanceMatrix, CoordsOf(places))
    ensures data.numVehicles == 1 && data.depot == 0
    ensures |places| >= 1 ==> ValidModel(data)
  {
    var coords := ExtractCoords(places);
    var distancem := ComputeEuclideanDistanceMatrix(coords);
    data := DataModel(places, distancem, 1, 0);
  }

  /** The index manager's `IndexToNode` for one vehicle based at node 0: the
      identity on the nodes, and the end index `size` maps back to the depot. */
  function IndexToNode(size: nat, index: nat): (node: nat)
    requires 1 <= size && index <= size
    ensures node < size
  {
    if index == size then 0 else index
  }

  /** `distance_callback`: converts both routing indices to nodes and looks
      the transit cost up in the distance matrix. */
  function DistanceCallback(data: DataModel, fromIndex: nat, toIndex: nat): int
    requires WellShaped(data)
    requires fromIndex <= |data.places| && toIndex <= |data.places|
  {
    var fromNode := IndexToNode(|data.places|, fromIndex);
    var toNode := IndexToNode(|data.places|, toIndex);
    data.distanceMatrix[fromNode][toNode]
  }

  /** In a model built by `create_data_model`, the transit cost between two
      routing indices is the truncated scaled distance between the places
      they denote, so it is never negative. */
  lemma CallbackIsTruncatedDistance(data: DataModel, fromIndex: nat, toIndex: nat)
    requires ValidModel(data)
    requires fromIndex <= |data.places| && toIndex <= |data.places|
    ensures DistanceCallback(data, fromIndex, toIndex) >= 0
    ensures DistanceCallback(data, fromIndex, toIndex) == TruncatedHypot(
      CoordsOf(data.places)[IndexToNode(|data.places|, fromIndex)],
      CoordsOf(data.places)[IndexToNode(|data.places|, toIndex)])
  {
    DistanceMatrixProperties(data.distanceMatrix, CoordsOf(data.places));
  }

  /** The transit cost is the same in both directions, and zero between a
      place and itself (the depot and the vehicle's end index included). */
  lemma CallbackSymmetric(data: DataModel, a: nat, b: nat)
    requires ValidModel(data)
    requires a <= |data.places| && b <= |data.places|
    ensures DistanceCallback(data, a, b) == DistanceCallback(data, b, a)
    ensures IndexToNode(|data.places|, a) == IndexToNode(|data.places|, b) ==>
      DistanceCallback(data, a, b) == 0
  {
    var coords := CoordsOf(data.places);
    var n := |data.places|;
    CallbackIsTruncatedDistance(data, a, b);
    CallbackIsTruncatedDistance(data, b, a);
    HypotSymmetric(coords[IndexToNode(n, a)], coords[IndexToNode(n, b)]);
    if IndexToNode(n, a) == IndexToNode(n, b) {
      HypotSelfZero(coords[IndexToNode(n, a)], coords[IndexToNode(n, b)]);
    }
  }
}
