/** The route renderers. Each one returns the text or the records the
    original prints, instead of printing them. */
module Reporter {
  import opened Places
  import opened Distances
  import opened DataModel
  import opened Routing

  /** One link of an arrow chain: `name (activity) -> `, or `name -> ` when
      activities are not printed. */
  function Arrow(p: Place, printActivities: bool): string
  {
    if printActivities then p.name + " (" + p.activity + ") -> " else p.name + " -> "
  }

  /** The arrow links of ps, in order, as a string grown link by link. */
  function Arrows(ps: seq<Place>, printActivities: bool): string
  {
    if ps == [] then "" else Arrows(ps[..|ps| - 1], printActivities) + Arrow(ps[|ps| - 1], printActivities)
  }

  lemma ArrowsSnoc(ps: seq<Place>, p: Place, printActivities: bool)
    ensures Arrows(ps + [p], printActivities) == Arrows(ps, printActivities) + Arrow(p, printActivities)
  {
    assert (ps + [p])[..|ps|] == ps;
  }

  /** The chain of a concatenation is the concatenation of the chains. */
  lemma {:induction false} ArrowsAppend(a: seq<Place>, b: seq<Place>, printActivities: bool)
    ensures Arrows(a + b, printActivities) == Arrows(a, printActivities) + Arrows(b, printActivities)
  {
    if b == [] {
      assert a + b == a;
    } else {
      var front, last := b[..|b| - 1], b[|b| - 1];
      assert b == front + [last];
      assert a + b == (a + front) + [last];
      var x, y, z := Arrows(a, printActivities), Arrows(front, printActivities), Arrow(last, printActivities);
      calc {
        Arrows(a + b, printActivities);
        { ArrowsSnoc(a + front, last, printActivities); }
        Arrows(a + front, printActivities) + z;
        { ArrowsAppend(a, front, printActivities); }
        (x + y) + z;
        x + (y + z);
        { ArrowsSnoc(front, last, printActivities); }
        x + Arrows(b, printActivities);
      }
    }
  }

  /** Every place is listed, in order: the chain of ps is the chain of the
      places before ps[k], then the link of ps[k], then the chain of the
      places after it. */
  lemma ArrowAt(ps: seq<Place>, k: nat, printActivities: bool)
    requires k < |ps|
    ensures Arrows(ps, printActivities) ==
      Arrows(ps[..k], printActivities) + Arrow(ps[k], printActivities) + Arrows(ps[k + 1..], printActivities)
  {
    assert ps == ps[..k] + [ps[k]] + ps[k + 1..];
    ArrowsAppend(ps[..k] + [ps[k]], ps[k + 1..], printActivities);
    ArrowsSnoc(ps[..k], ps[k], printActivities);
  }

  /** `print_original_route`: two spaces, then every place of the data model
      in input order, then the name of place 0 with nothing after it. */
  method RenderOriginalRoute(data: DataModel, printActivities: bool) returns (original: string)
    requires |data.places| >= 1
    ensures original == "  " + Arrows(data.places, printActivities) + data.places[0].name
  {
    original := "  ";
    for i := 0 to |data.places|
      invariant original == "  " + Arrows(data.places[..i], printActivities)
    {
      ArrowsSnoc(data.places[..i], data.places[i], printActivities);
      assert data.places[..i + 1] == data.places[..i] + [data.places[i]];
      original := original + Arrow(data.places[i], printActivities);
    }
    assert data.places[..|data.places|] == data.places;
    original := original + data.places[0].name;
  }

  /** The places the vehicle visits in its first k steps, in visiting order. */
  function PlacesAlong(places: seq<Place>, next: Tour, k: nat): (ps: seq<Place>)
    requires |places| == |next| && k <= |next|
    ensures |ps| == k
  {
    if k == 0 then [] else PlacesAlong(places, next, k - 1) + [places[Orbit(next, k - 1)]]
  }

  /** Position j of the visiting order holds the place at step j. */
  lemma {:induction false} PlacesAlongAt(places: seq<Place>, next: Tour, k: nat)
    requires |places| == |next| && k <= |next|
    ensures forall j :: 0 <= j < k ==> PlacesAlong(places, next, k)[j] == places[Orbit(next, j)]
  {
    if k > 0 {
      PlacesAlongAt(places, next, k - 1);
    }
  }

  /** The nodes at the first k + 1 positions of the walk, with the end
      index mapped back to the depot. */
  function WalkNodes(next: Tour, k: nat): (walk: seq<nat>)
    requires k <= |next|
    ensures |walk| == k + 1
    ensures forall j :: 0 <= j <= k ==> walk[j] == IndexToNode(|next|, Orbit(next, j))
  {
    if k == 0 then [0] else WalkNodes(next, k - 1) + [IndexToNode(|next|, Orbit(next, k))]
  }

  /** The sum of the matrix cells over the consecutive arcs of a walk. */
  function ArcSum(m: seq<seq<int>>, walk: seq<nat>): int
    requires IsSquare(m, |m|)
    requires forall i :: 0 <= i < |walk| ==> walk[i] < |m|
  {
    if |walk| < 2 then 0
    else ArcSum(m, walk[..|walk| - 1]) + m[walk[|walk| - 2]][walk[|walk| - 1]]
  }

  /** `route_distance` after k steps: the arc costs the solver reports for
      each step taken, as `GetArcCostForVehicle` does through the callback. */
  function RouteCost(data: DataModel, next: Tour, k: nat): int
    requires WellShaped(data) && |next| == |data.places| && k <= |next|
  {
    if k == 0 then 0
    else RouteCost(data, next, k - 1) + DistanceCallback(data, Orbit(next, k - 1), Orbit(next, k))
  }

  /** One pass of the `print_solution` loop adds the link of the place at
      the current step to the chain. */
  lemma ChainStep(places: seq<Place>, next: Tour, k: nat, printActivities: bool)
    requires |places| == |next| && k < |next|
    ensures Arrows(PlacesAlong(places, next, k + 1), printActivities)
      == Arrows(PlacesAlong(places, next, k), printActivities) + Arrow(places[Orbit(next, k)], printActivities)
  {
    assert PlacesAlong(places, next, k + 1) == PlacesAlong(places, next, k) + [places[Orbit(next, k)]];
    ArrowsSnoc(PlacesAlong(places, next, k), places[Orbit(next, k)], printActivities);
  }

  /** One pass of the `print_solution` loop adds the cost of the arc just
      taken to the route distance. */
  lemma RouteCostStep(data: DataModel, next: Tour, k: nat)
    requires WellShaped(data) && |next| == |data.places| && k < |next|
    ensures Orbit(next, k) < |next| && next[Orbit(next, k)] == Orbit(next, k + 1)
    ensures RouteCost(data, next, k + 1)
      == RouteCost(data, next, k) + DistanceCallback(data, Orbit(next, k), next[Orbit(next, k)])
  {
  }

  /** `print_solution`: the arrow chain of the places in successor order from
      the depot, closed by a space, the depot's name and a newline; and the
      accumulated route distance. */
  method RenderSolution(data: DataModel, next: Tour, printActivities: bool)
      returns (planOutput: string, routeDistance: int)
    requires WellShaped(data) && |next| == |data.places|
    ensures planOutput ==
      Arrows(PlacesAlong(data.places, next, |next|), printActivities) + " " + data.places[0].name + "\n"
    ensures routeDistance == RouteCost(data, next, |next|)
  {
    var n := |next|;
    planOutput := "";
    var index := 0;
    routeDistance := 0;
    ghost var k := 0;
    while index != n
      invariant k <= n && index == Orbit(next, k)
      invariant planOutput == Arrows(PlacesAlong(data.places, next, k), printActivities)
      invariant routeDistance == RouteCost(data, next, k)
      decreases n - k
    {
      StepInsideTour(next, k);
      ChainStep(data.places, next, k, printActivities);
      RouteCostStep(data, next, k);
      planOutput := planOutput + Arrow(data.places[IndexToNode(n, index)], printActivities);
      var previousIndex := index;
      index := next[index];
      routeDistance := routeDistance + DistanceCallback(data, previousIndex, index);
      k := k + 1;
    }
    EndReachedAfterTour(next, k);
    planOutput := planOutput + " " + data.places[IndexToNode(n, index)].name + "\n";
  }

  /** One `{lat: .., lng: ..}, // name` line of the map polyline. */
  datatype MapPoint = MapPoint(lat: real, lng: real, name: string)

  function PointOf(p: Place): MapPoint
  {
    MapPoint(p.lat, p.lng, p.name)
  }

  /** `print_solution_gmaps`: the start record is emitted before the loop and
      again on the loop's first pass, so a tour of N places gives N + 2
      records: the depot first, second and last, and the places in successor
      order in between. */
  method RenderSolutionGmaps(data: DataModel, next: Tour) returns (records: seq<MapPoint>)
    requires |next| == |data.places|
    ensures |records| == |next| + 2
    ensures records[0] == PointOf(data.places[0])
    ensures records[1] == PointOf(data.places[0])
    ensures records[|next| + 1] == PointOf(data.places[0])
    ensures forall k :: 0 <= k < |next| ==> records[k + 1] == PointOf(data.places[Orbit(next, k)])
  {
    var n := |next|;
    var index := 0;
    records := [PointOf(data.places[IndexToNode(n, index)])];
    ghost var k := 0;
    while index != n
      invariant k <= n && index == Orbit(next, k)
      invariant |records| == k + 1
      invariant records[0] == PointOf(data.places[0])
      invariant forall j :: 0 <= j < k ==> records[j + 1] == PointOf(data.places[Orbit(next, j)])
      decreases n - k
    {
      records := records + [PointOf(data.places[IndexToNode(n, index)])];
      index := next[index];
      k := k + 1;
    }
    records := records + [PointOf(data.places[IndexToNode(n, index)])];
  }

  /** The solved chain lists each place of the tour in visiting order: link k
      names the place at step k, the same place as map record k + 1. */
  lemma SolutionLinkAt(data: DataModel, next: Tour, k: nat, printActivities: bool)
    requires |next| == |data.places| && k < |next|
    ensures var ps := PlacesAlong(data.places, next, |next|);
      Arrows(ps, printActivities) ==
        Arrows(ps[..k], printActivities)
        + Arrow(data.places[Orbit(next, k)], printActivities)
        + Arrows(ps[k + 1..], printActivities)
  {
    var ps := PlacesAlong(data.places, next, |next|);
    PlacesAlongAt(data.places, next, |next|);
    ArrowAt(ps, k, printActivities);
  }

  /** Every place has exactly one link in the solved chain: some step j
      visits it, and no other step visits the same node. */
  lemma SolutionListsEveryPlaceOnce(places: seq<Place>, next: Tour, v: nat)
    requires |places| == |next| && v < |next|
    ensures exists j :: 0 <= j < |next| && Orbit(next, j) == v && PlacesAlong(places, next, |next|)[j] == places[v]
    ensures forall i, j :: 0 <= i < |next| && 0 <= j < |next| && Orbit(next, i) == v && Orbit(next, j) == v ==> i == j
  {
    TourVisitsEveryNode(next);
    PlacesAlongAt(places, next, |next|);
    assert v in Visited(next, |next|);
    var j :| 0 <= j < |next| && Orbit(next, j) == v;
    assert PlacesAlong(places, next, |next|)[j] == places[v];
    forall i, j | 0 <= i < |next| && 0 <= j < |next| && Orbit(next, i) == v && Orbit(next, j) == v
      ensures i == j
    {
      if i < j {
        TourIsDistinct(next, i, j);
      } else if j < i {
        TourIsDistinct(next, j, i);
      }
    }
  }

  /** Visiting the places in input order renders the same chain as the
      original route, so the two outputs can be compared line by line. */
  lemma InOrderSolutionIsOriginalOrder(places: seq<Place>)
    requires |places| >= 1
    ensures ClosedTour(InOrder(|places|))
    ensures PlacesAlong(places, InOrder(|places|), |places|) == places
  {
    InOrderIsClosedTour(|places|);
    PlacesAlongAt(places, InOrder(|places|), |places|);
  }

  /** The walk the route distance is summed over starts and ends at the depot,
      passing through every place once. */
  lemma WalkIsClosed(next: Tour)
    ensures WalkNodes(next, |next|)[0] == 0 && WalkNodes(next, |next|)[|next|] == 0
    ensures forall j :: 0 <= j < |next| ==> WalkNodes(next, |next|)[j] == Orbit(next, j)
  {
  }

  /** The route distance is the sum of the distance matrix cells over the
      closed walk, the return arc to the depot included. */
  lemma {:induction false} RouteCostIsArcSum(data: DataModel, next: Tour, k: nat)
    requires WellShaped(data) && |next| == |data.places| && k <= |next|
    ensures RouteCost(data, next, k) == ArcSum(data.distanceMatrix, WalkNodes(next, k))
  {
    if k > 0 {
      RouteCostIsArcSum(data, next, k - 1);
      WalkNodesStep(next, k);
      ArcSumStep(data.distanceMatrix, WalkNodes(next, k));
    }
  }

  lemma WalkNodesStep(next: Tour, k: nat)
    requires 0 < k <= |next|
    ensures WalkNodes(next, k)[..k] == WalkNodes(next, k - 1)
    ensures WalkNodes(next, k)[k - 1] == IndexToNode(|next|, Orbit(next, k - 1))
    ensures WalkNodes(next, k)[k] == IndexToNode(|next|, Orbit(next, k))
  {
  }

  lemma ArcSumStep(m: seq<seq<int>>, walk: seq<nat>)
    requires IsSquare(m, |m|)
    requires forall i :: 0 <= i < |walk| ==> walk[i] < |m|
    requires |walk| >= 2
    ensures ArcSum(m, walk) == ArcSum(m, walk[..|walk| - 1]) + m[walk[|walk| - 2]][walk[|walk| - 1]]
  {
  }

  /** In a model built from places, no route has a negative distance. */
  lemma {:induction false} RouteCostNonNegative(data: DataModel, next: Tour, k: nat)
    requires ValidModel(data) && |next| == |data.places| && k <= |next|
    ensures RouteCost(data, next, k) >= 0
  {
    if k > 0 {
      RouteCostNonNegative(data, next, k - 1);
      CallbackIsTruncatedDistance(data, Orbit(next, k - 1), Orbit(next, k));
    }
  }

  function Reversed(walk: seq<nat>): (r: seq<nat>)
    ensures |r| == |walk|
    ensures forall i :: 0 <= i < |walk| ==> r[i] == walk[|walk| - 1 - i]
  {
    if walk == [] then [] else [walk[|walk| - 1]] + Reversed(walk[..|walk| - 1])
  }

  /** The arc sum of a walk splits off its first arc. */
  lemma {:induction false} ArcSumFront(m: seq<seq<int>>, walk: seq<nat>)
    requires IsSquare(m, |m|)
    requires forall i :: 0 <= i < |walk| ==> walk[i] < |m|
    requires |walk| >= 2
    ensures ArcSum(m, walk) == m[walk[0]][walk[1]] + ArcSum(m, walk[1..])
  {
    if |walk| > 2 {
      ArcSumFront(m, walk[..|walk| - 1]);
      assert walk[..|walk| - 1][1..] == walk[1..][..|walk[1..]| - 1];
    }
  }

  /** Over a symmetric matrix a walk and its reverse cost the same: a tour
      and the same tour driven backwards have the same route distance. */
  lemma {:induction false} ReversedWalkSameCost(m: seq<seq<int>>, walk: seq<nat>)
    requires IsSquare(m, |m|) && IsSymmetric(m)
    requires forall i :: 0 <= i < |walk| ==> walk[i] < |m|
    ensures ArcSum(m, Reversed(walk)) == ArcSum(m, walk)
  {
    if |walk| >= 2 {
      var front := walk[..|walk| - 1];
      ReversedWalkSameCost(m, front);
      var r := Reversed(walk);
      assert r == [walk[|walk| - 1]] + Reversed(front);
      ArcSumFront(m, r);
      assert r[1..] == Reversed(front);
    }
  }

  /** In a model built from places, the route distance of a tour equals the
      cost of the same closed walk driven backwards, from the depot through
      the places in reverse order and back. */
  lemma TourReversedSameCost(data: DataModel, next: Tour)
    requires ValidModel(data) && |next| == |data.places|
    ensures RouteCost(data, next, |next|)
      == ArcSum(data.distanceMatrix, Reversed(WalkNodes(next, |next|)))
  {
    DistanceMatrixProperties(data.distanceMatrix, CoordsOf(data.places));
    RouteCostIsArcSum(data, next, |next|);
    ReversedWalkSameCost(data.distanceMatrix, WalkNodes(next, |next|));
  }
}
