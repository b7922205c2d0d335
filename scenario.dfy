/** A worked instance: three places 0.001 degrees apart along each axis, so
    that after scaling the legs are 10, 10 and sqrt(200) ~ 14.14. */
module Scenario {
  import opened Places
  import opened Distances
  import opened DataModel
  import opened Routing
  import opened Reporter

  function ThreePlaces(): seq<Place>
  {
    [Place("A", "start", 0.0, 0.0), Place("B", "east", 0.0, 0.001), Place("C", "north", 0.001, 0.0)]
  }

  lemma ScaledLegs()
    ensures TruncatedHypot(Coord(0.0, 0.0), Coord(0.0, 0.001)) == 10
    ensures TruncatedHypot(Coord(0.0, 0.0), Coord(0.001, 0.0)) == 10
    ensures TruncatedHypot(Coord(0.0, 0.001), Coord(0.001, 0.0)) == 14
  {
    assert SquaredScaledDistance(Coord(0.0, 0.0), Coord(0.0, 0.001)) == 100.0;
    assert SquaredScaledDistance(Coord(0.0, 0.0), Coord(0.001, 0.0)) == 100.0;
    assert SquaredScaledDistance(Coord(0.0, 0.001), Coord(0.001, 0.0)) == 200.0;
    ISqrtUnique(100, 10);
    ISqrtUnique(200, 14);
  }

  /** A -> B -> C -> A and its reverse A -> C -> B -> A: both successor
      arrays are closed tours and both cost 10 + 14 + 10 = 34. */
  lemma TourCosts(data: DataModel)
    requires WellShaped(data) && |data.places| == 3
    requires data.distanceMatrix == [[0, 10, 10], [10, 0, 14], [10, 14, 0]]
    ensures ClosedTour([1, 2, 3]) && RouteCost(data, [1, 2, 3], 3) == 34
    ensures ClosedTour([2, 3, 1]) && RouteCost(data, [2, 3, 1], 3) == 34
  {
    var forward, backward := [1, 2, 3], [2, 3, 1];
    assert Orbit(forward, 1) == 1 && Orbit(forward, 2) == 2 && Orbit(forward, 3) == 3;
    assert ClosedTour(forward);
    assert RouteCost(data, forward, 1) == 10;
    assert RouteCost(data, forward, 2) == 24;
    assert Orbit(backward, 1) == 2 && Orbit(backward, 2) == 1 && Orbit(backward, 3) == 3;
    assert ClosedTour(backward);
    assert RouteCost(data, backward, 1) == 10;
    assert RouteCost(data, backward, 2) == 24;
  }

  /** The matrix of the three coordinates, the diagonal leg truncated
      from 14.14 to 14. */
  lemma ThreePlaceMatrix(m: seq<seq<int>>, coords: seq<Coord>)
    requires coords == [Coord(0.0, 0.0), Coord(0.0, 0.001), Coord(0.001, 0.0)]
    requires IsDistanceMatrixOf(m, coords)
    ensures m == [[0, 10, 10], [10, 0, 14], [10, 14, 0]]
  {
    ScaledLegs();
    HypotSymmetric(coords[0], coords[1]);
    HypotSymmetric(coords[0], coords[2]);
    HypotSymmetric(coords[1], coords[2]);
    assert m[0] == [0, 10, 10] by {
      assert m[0][0] == Entry(coords, 0, 0) && m[0][1] == Entry(coords, 0, 1) && m[0][2] == Entry(coords, 0, 2);
    }
    assert m[1] == [10, 0, 14] by {
      assert m[1][0] == Entry(coords, 1, 0) && m[1][1] == Entry(coords, 1, 1) && m[1][2] == Entry(coords, 1, 2);
    }
    assert m[2] == [10, 14, 0] by {
      assert m[2][0] == Entry(coords, 2, 0) && m[2][1] == Entry(coords, 2, 1) && m[2][2] == Entry(coords, 2, 2);
    }
  }

  /** The data model of the three places has the matrix
      [[0, 10, 10], [10, 0, 14], [10, 14, 0]], so the tour A -> B -> C -> A
      and its reverse both have route distance 34. */
  lemma ThreePlaceScenario(data: DataModel)
    requires ValidModel(data) && data.places == ThreePlaces()
    ensures data.distanceMatrix == [[0, 10, 10], [10, 0, 14], [10, 14, 0]]
    ensures ClosedTour([1, 2, 3]) && RouteCost(data, [1, 2, 3], 3) == 34
    ensures ClosedTour([2, 3, 1]) && RouteCost(data, [2, 3, 1], 3) == 34
  {
    var coords := CoordsOf(data.places);
    assert coords == [Coord(0.0, 0.0), Coord(0.0, 0.001), Coord(0.001, 0.0)];
    ThreePlaceMatrix(data.distanceMatrix, coords);
    TourCosts(data);
  }
}
