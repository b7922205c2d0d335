/** Places and their coordinates.

    A place is one row of the input table: a name, a free-text activity and
    the latitude and longitude in degrees. The coordinates are kept as the
    exact decimal values the table holds; parsing the text is not modelled. */
module Places {

  /** One waypoint: the `Place`, `Activity`, `Lat` and `Long` columns. */
  datatype Place = Place(name: string, activity: string, lat: real, lng: real)

  /** A (latitude, longitude) pair, with no identity of its own. */
  datatype Coord = Coord(lat: real, lng: real)

  /** Reference definition: the coordinates of each place, in input order. */
  function CoordsOf(places: seq<Place>): seq<Coord>
  {
    seq(|places|, i requires 0 <= i < |places| => Coord(places[i].lat, places[i].lng))
  }

  /** `extractCoords`: appends one coordinate pair per place, in input order. */
  method ExtractCoords(input: seq<Place>) returns (coords: seq<Coord>)
    ensures |coords| == |input|
    ensures forall i :: 0 <= i < |input| ==>
      coords[i].lat == input[i].lat && coords[i].lng == input[i].lng
    ensures coords == CoordsOf(input)
  {
    coords := [];
    for i := 0 to |input|
      invariant |coords| == i
      invariant forall k :: 0 <= k < i ==> coords[k] == Coord(input[k].lat, input[k].lng)
    {
      coords := coords + [Coord(input[i].lat, input[i].lng)];
    }
  }
}
