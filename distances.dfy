/** The distance matrix builder.

    A cell is the Euclidean norm of the scaled coordinate differences,
    truncated to an integer, as `int(math.hypot(dx, dy))` computes it.
    Over exact reals, floor(sqrt(v)) is the integer square root of floor(v)
    for every v >= 0, so the cell is `ISqrt(Floor(dx * dx + dy * dy))`. */
module Distances {
  import opened Places

  /** Multiplier applied to coordinate differences (in degrees) before
      truncation, since the solver only accepts integer arc costs. */
  const SCALE: real := 10000.0

  /** Integer square root: the largest r with r * r <= n. */
  function ISqrt(n: nat): (r: nat)
    ensures r * r <= n < (r + 1) * (r + 1)
  {
    if n == 0 then 0
    else
      var h := ISqrt(n / 4);
      var r := if (2 * h + 1) * (2 * h + 1) <= n then 2 * h + 1 else 2 * h;
      ISqrtStep(n, h, r);
      r
  }

  /** Doubling the root of n / 4, and adding one when that still fits,
      gives the root of n. */
  lemma ISqrtStep(n: nat, h: nat, r: nat)
    requires h * h <= n / 4 < (h + 1) * (h + 1)
    requires r == if (2 * h + 1) * (2 * h + 1) <= n then 2 * h + 1 else 2 * h
    ensures r * r <= n < (r + 1) * (r + 1)
  {
    var q := n / 4;
    assert 4 * q <= n < 4 * q + 4;
    assert (2 * h) * (2 * h) == 4 * (h * h);
    assert (2 * h + 2) * (2 * h + 2) == 4 * ((h + 1) * (h + 1));
    if r == 2 * h + 1 {
      assert (r + 1) * (r + 1) == (2 * h + 2) * (2 * h + 2);
    }
  }

  lemma SquareMonotone(a: nat, b: nat)
    requires a <= b
    ensures a * a <= b * b
  {
    assert a * a <= a * b;
  }

  /** The integer square root is the only r with r * r <= n < (r + 1) * (r + 1). */
  lemma ISqrtUnique(n: nat, r: nat)
    requires r * r <= n < (r + 1) * (r + 1)
    ensures ISqrt(n) == r
  {
    var q := ISqrt(n);
    if q < r {
      SquareMonotone(q + 1, r);
    } else if r < q {
      SquareMonotone(r + 1, q);
    }
  }

  /** dx * dx + dy * dy for the scaled differences of a and b. */
  function SquaredScaledDistance(a: Coord, b: Coord): (d: real)
    ensures d >= 0.0
  {
    var dx := (a.lat - b.lat) * SCALE;
    var dy := (a.lng - b.lng) * SCALE;
    dx * dx + dy * dy
  }

  /** `int(math.hypot(x_d, y_d))`: the scaled Euclidean distance, truncated. */
  function TruncatedHypot(a: Coord, b: Coord): nat
  {
    ISqrt(SquaredScaledDistance(a, b).Floor)
  }

  /** The truncated distance is the floor of the real norm: its square does
      not exceed the squared norm, and the square of its successor does. */
  lemma TruncatedHypotIsFloorOfNorm(a: Coord, b: Coord)
    ensures (TruncatedHypot(a, b) * TruncatedHypot(a, b)) as real <= SquaredScaledDistance(a, b)
    ensures SquaredScaledDistance(a, b) < ((TruncatedHypot(a, b) + 1) * (TruncatedHypot(a, b) + 1)) as real
  {
  }

  /** The truncated distance does not depend on the direction of travel. */
  lemma HypotSymmetric(a: Coord, b: Coord)
    ensures TruncatedHypot(a, b) == TruncatedHypot(b, a)
  {
    assert (b.lat - a.lat) * SCALE == -((a.lat - b.lat) * SCALE);
    assert (b.lng - a.lng) * SCALE == -((a.lng - b.lng) * SCALE);
    assert SquaredScaledDistance(a, b) == SquaredScaledDistance(b, a);
  }

  /** Two coincident coordinates are at distance 0. */
  lemma HypotSelfZero(a: Coord, b: Coord)
    requires a == b
    ensures TruncatedHypot(a, b) == 0
  {
    assert SquaredScaledDistance(a, b) == 0.0;
  }

  /** A cell is 0 exactly when the squared scaled distance is below 1, that is
      when the two points are less than 1 / SCALE degrees apart. */
  lemma HypotZeroIff(a: Coord, b: Coord)
    ensures TruncatedHypot(a, b) == 0 <==> SquaredScaledDistance(a, b) < 1.0
  {
    TruncatedHypotIsFloorOfNorm(a, b);
    var r := TruncatedHypot(a, b);
    if r != 0 {
      SquareMonotone(1, r);
    }
  }

  /** Truncation makes distinct but nearby places cost 0 to travel between:
      0.00005 degrees apart scales to 0.5, which truncates to 0. */
  lemma NearbyDistinctPlacesCostZero()
    ensures Coord(0.0, 0.0) != Coord(0.00005, 0.0)
    ensures TruncatedHypot(Coord(0.0, 0.0), Coord(0.00005, 0.0)) == 0
  {
    var a, b := Coord(0.0, 0.0), Coord(0.00005, 0.0);
    assert (a.lat - b.lat) * SCALE == -0.5;
    assert (a.lng - b.lng) * SCALE == 0.0;
    assert SquaredScaledDistance(a, b) == 0.25;
    HypotZeroIff(a, b);
  }

  /** The cell (i, j) the builder writes: 0 on the diagonal, the truncated
      scaled distance elsewhere. */
  function Entry(coords: seq<Coord>, i: nat, j: nat): nat
    requires i < |coords| && j < |coords|
  {
    if i == j then 0 else TruncatedHypot(coords[i], coords[j])
  }

  /** m is the distance matrix of coords. */
  predicate IsDistanceMatrixOf(m: seq<seq<int>>, coords: seq<Coord>)
  {
    && |m| == |coords|
    && (forall i :: 0 <= i < |m| ==> |m[i]| == |coords|)
    && (forall i, j :: 0 <= i < |coords| && 0 <= j < |coords| ==> m[i][j] == Entry(coords, i, j))
  }

  predicate IsSquare(m: seq<seq<int>>, n: nat)
  {
    |m| == n && forall i :: 0 <= i < |m| ==> |m[i]| == n
  }

  predicate IsSymmetric(m: seq<seq<int>>)
    requires IsSquare(m, |m|)
  {
    forall i, j :: 0 <= i < |m| && 0 <= j < |m| ==> m[i][j] == m[j][i]
  }

  /** `compute_euclidean_distance_matrix`: allocates an N x N matrix of zeros
      and overwrites every cell in two nested loops. */
  method ComputeEuclideanDistanceMatrix(locations: seq<Coord>) returns (distances: seq<seq<int>>)
    ensures IsDistanceMatrixOf(distances, locations)
  {
    var size := |locations|;
    distances := seq(size, _ => seq(size, _ => 0));
    for fromCounter := 0 to size
      invariant IsSquare(distances, size)
      invariant forall i, j :: 0 <= i < fromCounter && 0 <= j < size ==>
        distances[i][j] == Entry(locations, i, j)
    {
      for toCounter := 0 to size
        invariant IsSquare(distances, size)
        invariant forall i, j :: 0 <= i < fromCounter && 0 <= j < size ==>
          distances[i][j] == Entry(locations, i, j)
        invariant forall j :: 0 <= j < toCounter ==>
          distances[fromCounter][j] == Entry(locations, fromCounter, j)
      {
        var cell;
        if fromCounter == toCounter {
          cell := 0;
        } else {
          cell := TruncatedHypot(locations[fromCounter], locations[toCounter]);
        }
        distances := distances[fromCounter := distances[fromCounter][toCounter := cell]];
      }
    }
  }

  /** The matrix of N locations is N x N, has a zero diagonal, is symmetric,
      holds no negative cell, and is 0 between coincident locations. Every
      cell, the diagonal included, is the truncated distance of its two
      locations. */
  lemma DistanceMatrixProperties(m: seq<seq<int>>, coords: seq<Coord>)
    requires IsDistanceMatrixOf(m, coords)
    ensures IsSquare(m, |coords|)
    ensures forall i :: 0 <= i < |m| ==> m[i][i] == 0
    ensures IsSymmetric(m)
    ensures forall i, j :: 0 <= i < |m| && 0 <= j < |m| ==> m[i][j] >= 0
    ensures forall i, j :: 0 <= i < |m| && 0 <= j < |m| ==>
      m[i][j] == TruncatedHypot(coords[i], coords[j])
    ensures forall i, j :: 0 <= i < |m| && 0 <= j < |m| && coords[i] == coords[j] ==> m[i][j] == 0
  {
    forall i, j | 0 <= i < |m| && 0 <= j < |m|
      ensures m[i][j] == m[j][i]
      ensures m[i][j] == TruncatedHypot(coords[i], coords[j])
    {
      HypotSymmetric(coords[i], coords[j]);
      if i == j {
        HypotSelfZero(coords[i], coords[j]);
      }
    }
  }
}
