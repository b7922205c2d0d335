# Ambiance TSP — a Dafny model of the problem formulation and the tour reporter

`src/solve_tsp.py` reads a table of named waypoints and builds an integer
travel-cost matrix from them. It then hands a one-vehicle closed-tour problem
to an external routing engine and prints the tour that comes back. This
project models the deterministic code around that engine call:

- **Places** (`places.dfy`): a place holds a name, an activity, a latitude and
  a longitude. `ExtractCoords` is the `extractCoords` loop, which collects the
  coordinate pairs in input order.
- **Distances** (`distances.dfy`): `compute_euclidean_distance_matrix`.
  - It allocates an N × N matrix of zeros and overwrites every cell in two
    nested loops. The diagonal is 0.
  - Each other cell is `int(math.hypot(dx, dy))`, where dx and dy are the
    coordinate differences scaled by 10000.
  - Coordinates are exact reals. `floor(sqrt(v))` equals the integer square
    root of `floor(v)`, so a cell is `ISqrt(Floor(dx*dx + dy*dy))`, and
    `TruncatedHypotIsFloorOfNorm` proves it is the floor of the real norm.
  - The lemmas prove the matrix is square, has a zero diagonal, is symmetric,
    is non-negative, and is 0 between coincident places.
- **DataModel** (`data_model.dfy`):
  - `create_data_model` returns the places, their matrix, one vehicle and
    depot 0.
  - The engine's `IndexToNode` is modelled for one vehicle based at node 0:
    the identity on nodes, with the end index mapped back to the depot.
  - `distance_callback` is the matrix lookup behind that mapping.
- **Routing** (`routing.dfy`): the engine's assignment, as the renderers read
  it.
  - The assignment is a successor array `next`, with `next[i]` the value of
    `NextVar(i)`. Index 0 is the start and index N is the end.
  - A `Tour` is a successor array whose walk stays on the nodes for N steps
    and reaches the end index at step N.
  - The lemmas show that such a walk visits every node exactly once.
- **Reporter** (`reporter.dfy`): the three renderers, as methods with the
  source's loops. They return the text or the records instead of printing
  them.
  - `print_original_route` gives two spaces, one arrow link per place in input
    order, then place 0's name.
  - `print_solution` gives the arrow links in successor order, then `" "`, the
    depot's name and `"\n"`, together with the accumulated `route_distance`.
  - `print_solution_gmaps` gives the map records.
- **Scenario** (`scenario.dfy`): a worked three-place instance with its
  matrix and the cost of a tour and its reverse.

Three behaviours of the code differ from what a reader might expect; the
model follows the code:
- **Number of map records.** A reader might expect N + 1 map records.
  `print_solution_gmaps` emits the start record once before its loop and
  again on the loop's first pass, so it prints N + 2 records (the depot
  first, second and last).
- **Zero cells.** A reader might expect a zero cell only for identical
  coordinates. A cell is 0 whenever the scaled points are less than one
  unit apart, so distinct but nearby places also cost 0. A zero cell does not
  mean identical coordinates (`HypotZeroIff`, `NearbyDistinctPlacesCostZero`).
- **Closing text of the plan.** `print_solution` appends `' {}\n'` after a
  chain that already ends in `"-> "`, so the text ends `"X ->  Depot\n"`,
  with two spaces before the depot's name.

## Model

| member | source | states |
|---|---|---|
| Places.ExtractCoords | src/solve_tsp.py:17-21 | one coordinate pair per place, in input order: pair i holds place i's latitude and longitude |
| Distances.TruncatedHypot | src/solve_tsp.py:42-44 | `int(math.hypot(x_d, y_d))` with both differences scaled by 10000: the integer root of the floor of dx² + dy², which TruncatedHypotIsFloorOfNorm shows is the floor of the exact norm |
| Distances.ISqrt | src/solve_tsp.py:42-44 | the truncation of the norm: r * r <= n < (r + 1) * (r + 1) |
| Distances.ISqrtUnique | src/solve_tsp.py:42-44 | the truncated root is the only r with r * r <= n < (r + 1) * (r + 1) |
| Distances.TruncatedHypotIsFloorOfNorm | src/solve_tsp.py:42-44 | the cell c satisfies c² <= dx² + dy² < (c + 1)², that is, it is the floor of the scaled Euclidean norm |
| Distances.HypotSymmetric | src/solve_tsp.py:42-44 | the cell between a and b equals the cell between b and a |
| Distances.HypotSelfZero | src/solve_tsp.py:42-44 | coincident coordinates give a cell of 0 |
| Distances.HypotZeroIff | src/solve_tsp.py:42-44 | a cell is 0 exactly when the squared scaled distance is below 1 |
| Distances.NearbyDistinctPlacesCostZero | src/solve_tsp.py:42-44 | two different coordinates 0.00005 degrees apart get a cell of 0 |
| Distances.Entry | src/solve_tsp.py:38-44 | the cell the inner loop writes: 0 when the two counters are equal, the truncated scaled distance otherwise |
| Distances.ComputeEuclideanDistanceMatrix | src/solve_tsp.py:25-45 | the nested loops leave an N × N matrix whose cell (i, j) is 0 on the diagonal and the truncated scaled distance elsewhere |
| Distances.DistanceMatrixProperties | src/solve_tsp.py:29-45 | that matrix is square, has a zero diagonal, is symmetric and non-negative, every cell is the truncated distance of its two coordinates, and coincident coordinates give 0 |
| DataModel.CreateDataModel | src/solve_tsp.py:89-104 | the model holds the places unchanged, their distance matrix (one row per place), one vehicle and depot 0 |
| DataModel.IndexToNode | src/solve_tsp.py:134-135 | every routing index, the end index included, maps to a valid node |
| DataModel.DistanceCallback | src/solve_tsp.py:132-136 | the transit cost of two routing indices is the matrix cell of the nodes `IndexToNode` maps them to; CallbackIsTruncatedDistance and CallbackSymmetric state what that cell is |
| DataModel.CallbackIsTruncatedDistance | src/solve_tsp.py:132-136 | the transit cost between two routing indices is the non-negative truncated distance between the places they denote |
| DataModel.CallbackSymmetric | src/solve_tsp.py:132-136 | the transit cost is the same in both directions, and 0 between two indices for the same node (the start and the end index included) |
| Routing.ClosedTour | src/solve_tsp.py:74-84 | the assignment the engine returns (the `Tour` type): every successor is a routing index, the walk from the start stays on the nodes for N steps and reaches the end index at step N |
| Routing.Orbit | src/solve_tsp.py:63-66 | the index reached by following the successors k times is a routing index |
| Routing.EndReachedAfterTour | src/solve_tsp.py:76-85 | in a tour the walk reaches the end index only at step N |
| Routing.StepInsideTour | src/solve_tsp.py:76-82 | before the end index, the walk is at a node and its next step is that node's successor |
| Routing.OrbitShift | src/solve_tsp.py:82 | two steps at the same index stay at the same index for every later step |
| Routing.TourIsDistinct | src/solve_tsp.py:76-82 | the first N steps of a tour visit pairwise distinct nodes |
| Routing.VisitedSize | src/solve_tsp.py:76-82 | the first k steps of a tour visit k different nodes |
| Routing.TourVisitsEveryNode | src/solve_tsp.py:76-82 | the nodes a tour visits are exactly 0 .. N - 1 |
| Routing.InOrderIsClosedTour | src/solve_tsp.py:76-82 | the successor array i -> i + 1 is a tour whose step k is node k |
| Reporter.Arrow | src/solve_tsp.py:51-54 | one link: `name (activity) -> ` when activities are printed, `name -> ` otherwise, the same strings as lines 77-80 |
| Reporter.Arrows | src/solve_tsp.py:50-54 | the links of a place list in order, grown one link at a time as the `+=` loops grow the text |
| Reporter.ArrowsAppend | src/solve_tsp.py:50-54 | the arrow chain of a concatenation is the concatenation of the chains |
| Reporter.ArrowAt | src/solve_tsp.py:50-54 | the chain of a place list is the chain before place k, then place k's link, then the chain after it |
| Reporter.RenderOriginalRoute | src/solve_tsp.py:48-56 | two spaces, the links of all places in input order (with the activity when asked), then place 0's name and nothing after it |
| Reporter.PlacesAlong | src/solve_tsp.py:76-82 | the places visited in the first k steps, in visiting order, as `data['places'][manager.IndexToNode(index)]` reads them |
| Reporter.PlacesAlongAt | src/solve_tsp.py:76-80 | position j of the visiting order is the place at step j of the walk |
| Reporter.RouteCost | src/solve_tsp.py:81-83 | `route_distance` after k passes: the sum of the callback costs of the k arcs taken, each from the index before the step to the index after it |
| Reporter.ChainStep | src/solve_tsp.py:77-80 | one pass of the loop adds the link of the current place to the chain |
| Reporter.RouteCostStep | src/solve_tsp.py:81-83 | one pass of the loop adds the cost of the arc just taken to the route distance |
| Reporter.RenderSolution | src/solve_tsp.py:71-86 | the links of the places in successor order from the depot, then " ", the depot's name and a newline; the route distance is the sum of the callback costs of the N steps, the return arc included |
| Reporter.RenderSolutionGmaps | src/solve_tsp.py:59-68 | N + 2 records: the depot first, second and last, and record k + 1 is the place at step k |
| Reporter.PointOf | src/solve_tsp.py:62-68 | one polyline record: the place's latitude, longitude and name |
| Reporter.SolutionLinkAt | src/solve_tsp.py:76-80 | the solved chain is the chain before step k, then the link of the place at step k, then the chain after it |
| Reporter.SolutionListsEveryPlaceOnce | src/solve_tsp.py:76-82 | every place has a link in the solved chain, at exactly one step |
| Reporter.InOrderSolutionIsOriginalOrder | src/solve_tsp.py:48-86 | a tour in input order lists the places exactly as the original route does |
| Reporter.WalkIsClosed | src/solve_tsp.py:74-85 | the walk the distance is summed over starts and ends at the depot and passes node Orbit(j) at step j |
| Reporter.RouteCostIsArcSum | src/solve_tsp.py:83 | the route distance is the sum of the matrix cells over consecutive nodes of that closed walk |
| Reporter.RouteCostNonNegative | src/solve_tsp.py:83 | in a model built from places, no route distance is negative |
| Reporter.ArcSumFront | src/solve_tsp.py:83 | a walk's cost is its first arc plus the cost of the rest |
| Reporter.ReversedWalkSameCost | src/solve_tsp.py:42-44 | over a symmetric matrix, a walk and the same walk driven backwards cost the same |
| Reporter.TourReversedSameCost | src/solve_tsp.py:74-85 | in a model built from places, the route distance of a tour equals the cost of its closed walk driven backwards |
| Scenario.ScaledLegs | src/solve_tsp.py:42-44 | legs of 0.001 degrees along one axis cost 10, and the diagonal leg of sqrt(200) truncates to 14 |
| Scenario.TourCosts | src/solve_tsp.py:83 | over the three-place matrix, the tour A -> B -> C -> A and its reverse are tours, and both cost 34 |
| Scenario.ThreePlaceMatrix | src/solve_tsp.py:25-45 | the three sample coordinates give the matrix [[0, 10, 10], [10, 0, 14], [10, 14, 0]] |
| Scenario.ThreePlaceScenario | src/solve_tsp.py:89-104 | the data model of the three sample places has that matrix, and both tours cost 34 |

## Left out

- `parseCSV` and every `print` call (file and console I/O). The places are
  an input, and the renderers return their text or records instead of
  printing them.
- `main`, argparse and the command-line flags: plumbing only.
- The OR-Tools engine. `RoutingIndexManager`, `RoutingModel`, the search
  parameters and `SolveWithParameters` are a foreign library.
  - The solved assignment is an input successor array with a closed-tour
    precondition.
  - `IndexToNode` is the identity on nodes, with the end index mapped to
    depot 0.
  - `GetArcCostForVehicle` is the registered `distance_callback`, as the
    arc cost evaluator set for the vehicle.
  - A solve that finds no assignment is not modelled, because `main` only
    prints a message in that case.
- `float()` parsing of the latitude and longitude text. Coordinates are exact
  reals. Double-precision rounding in the subtraction, in the scaling and in
  `math.hypot` is not modelled: the model computes the exact real norm and
  truncates it. Near a truncation boundary the source's cell can therefore
  be one unit below the model's: in doubles `(0.0003 - 0.0) * 10000` is
  2.9999999999999996, so `int(math.hypot(...))` gives 2 where
  `TruncatedHypot` gives 3.
- Reporter.RenderSolutionGmaps: a record carries the parsed coordinates, not
  the raw `Lat` and `Long` text the source prints.
- Reporter.RenderOriginalRoute: requires at least one place. With no places
  the source fails with an index error at `data['places'][0]`.
- Reporter.RenderSolution: requires a well-shaped model and a closed tour,
  which the engine guarantees for the assignment it returns.
- Error handling for an invalid coordinate, a dimension mismatch, an invalid
  depot, a failed solve or a cost-versus-objective check: the code has none
  of it.
- The unused `numpy` import.
