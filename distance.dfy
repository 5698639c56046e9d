/**
 * The distance matrix of distance.py: an n-by-n table over the stop
 * locations, each row its own list. The great-circle formula is a
 * parameter: its floating-point body is not part of this model.
 */
module Distance {
  import opened Common

  /** The distance from location i to location j as the matrix records it. */
  function Entry(locations: seq<Coord>, haversine: (real, real, real, real) -> real, i: nat, j: nat): real
    requires i < |locations| && j < |locations|
  {
    if i == j then 0.0
    else haversine(locations[i].0, locations[i].1, locations[j].0, locations[j].1)
  }

  /**
   * create_distance_matrix: one new row per location, so no two rows share
   * storage; the diagonal is 0 whatever the location, and any other cell
   * (i, j) is the formula applied to (lat_i, lon_i, lat_j, lon_j) in that
   * order. An empty list of locations gives an empty matrix.
   */
  method CreateDistanceMatrix(locations: seq<Coord>, haversine: (real, real, real, real) -> real)
    returns (matrix: seq<array<real>>)
    ensures |matrix| == |locations|
    ensures forall i :: 0 <= i < |matrix| ==> fresh(matrix[i]) && matrix[i].Length == |locations|
    ensures forall i, j :: 0 <= i < j < |matrix| ==> matrix[i] != matrix[j]
    ensures forall i :: 0 <= i < |matrix| ==> matrix[i][i] == 0.0
    ensures forall i, j :: 0 <= i < |matrix| && 0 <= j < |matrix| && i != j ==>
      matrix[i][j] == haversine(locations[i].0, locations[i].1, locations[j].0, locations[j].1)
  {
    var size := |locations|;
    matrix := [];
    while |matrix| < size
      invariant |matrix| <= size
      invariant forall i :: 0 <= i < |matrix| ==> fresh(matrix[i]) && matrix[i].Length == size
      invariant forall i, j :: 0 <= i < j < |matrix| ==> matrix[i] != matrix[j]
    {
      var row := new real[size](_ => 0.0);
      matrix := matrix + [row];
    }
    for i := 0 to size
      invariant forall r, c :: 0 <= r < i && 0 <= c < size ==> matrix[r][c] == Entry(locations, haversine, r, c)
    {
      for j := 0 to size
        invariant forall c :: 0 <= c < j ==> matrix[i][c] == Entry(locations, haversine, i, c)
        invariant forall r, c :: 0 <= r < i && 0 <= c < size ==> matrix[r][c] == Entry(locations, haversine, r, c)
      {
        if i == j {
          matrix[i][j] := 0.0;
        } else {
          matrix[i][j] := haversine(locations[i].0, locations[i].1, locations[j].0, locations[j].1);
        }
      }
    }
  }
}
