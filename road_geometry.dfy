/**
 * Road-geometry stitching of get_real_road_geometry
 * (real_world_implementation/3_run_optimization.py): a route's stop
 * coordinates are cut into overlapping windows of at most 40 points, each
 * window is sent to the OSRM routing service, and the returned road paths are
 * joined into one polyline with a total road distance. The service is a
 * function parameter: a window of (lat, lon) points to its answer, or None
 * for a failed request, a non-"Ok" code or an unreadable reply.
 */
module RoadGeometry {
  import opened Common

  /** A routing answer: the road path as [lon, lat] pairs, as GeoJSON lists them, and its length. */
  datatype OsrmRoute = OsrmRoute(geometry: seq<(real, real)>, distance: real)

  /** Points per request. */
  const ChunkSize: nat := 40

  /** Consecutive windows start this far apart, so they share one point. */
  const Stride: nat := ChunkSize - 1

  function Min(a: int, b: int): int
  {
    if a <= b then a else b
  }

  /** range(0, n - 1, 39): the number of windows for n points. */
  function NumWindows(n: nat): (w: nat)
    ensures n >= 2 ==> w >= 1
  {
    if n < 2 then 0 else (n - 2) / Stride + 1
  }

  /** A window starts at Stride * j exactly when that index is below n - 1. */
  lemma WindowCount(n: nat, j: nat)
    requires n >= 2
    ensures Stride * j < n - 1 <==> j < NumWindows(n)
  {
    var q, r := (n - 2) / Stride, (n - 2) % Stride;
    assert n - 2 == Stride * q + r && 0 <= r < Stride;
    assert j <= q ==> Stride * j <= Stride * q;
    assert j > q ==> Stride * j >= Stride * q + Stride;
  }

  /** coords[i:i + 40] for the window starting at i = 39 * j. */
  function Chunk(coords: seq<Coord>, j: nat): seq<Coord>
    requires Stride * j < |coords|
  {
    coords[Stride * j .. Min(Stride * j + ChunkSize, |coords|)]
  }

  /**
   * The windows cover the points: each holds 2 to 40 points, every window
   * but the last is full, a window's last point is the next window's first,
   * the first window starts at point 0 and the last ends at point n - 1.
   */
  lemma ChunkShape(coords: seq<Coord>, j: nat)
    requires j < NumWindows(|coords|)
    ensures Stride * j < |coords|
    ensures 2 <= |Chunk(coords, j)| <= ChunkSize
    ensures j + 1 < NumWindows(|coords|) ==> |Chunk(coords, j)| == ChunkSize
    ensures j + 1 < NumWindows(|coords|) ==>
      Chunk(coords, j)[|Chunk(coords, j)| - 1] == Chunk(coords, j + 1)[0]
    ensures j + 1 == NumWindows(|coords|) ==> Stride * j + |Chunk(coords, j)| == |coords|
  {
    var n := |coords|;
    WindowCount(n, j);
    WindowCount(n, j + 1);
  }

  function Swap(p: (real, real)): Coord
  {
    (p.1, p.0)
  }

  /** [[p[1], p[0]] for p in geom]: GeoJSON's [lon, lat] back to (lat, lon). */
  function SwapAll(ps: seq<(real, real)>): (r: seq<Coord>)
    ensures |r| == |ps|
  {
    seq(|ps|, i requires 0 <= i < |ps| => Swap(ps[i]))
  }

  /** The points a window adds: the road path, minus its first point once the polyline is non-empty. */
  function Addition(path: seq<Coord>, route: OsrmRoute): seq<Coord>
  {
    var pc := SwapAll(route.geometry);
    if path == [] then pc else if pc == [] then [] else pc[1..]
  }

  /**
   * The polyline and distance after the first k windows: a successful
   * window adds its road path and its distance, a failed one adds its own
   * points and nothing to the distance.
   */
  function StitchUpTo(coords: seq<Coord>, osrm: seq<Coord> -> Option<OsrmRoute>, k: nat): (seq<Coord>, real)
    requires k <= NumWindows(|coords|)
  {
    if k == 0 then ([], 0.0)
    else
      var prev := StitchUpTo(coords, osrm, k - 1);
      ChunkShape(coords, k - 1);
      var chunk := Chunk(coords, k - 1);
      match osrm(chunk)
      case Some(route) => (prev.0 + Addition(prev.0, route), prev.1 + route.distance)
      case None => (prev.0 + chunk, prev.1)
  }

  /** The distance reported by the successful windows among the first k; failed ones report none. */
  function ReportedDistance(coords: seq<Coord>, osrm: seq<Coord> -> Option<OsrmRoute>, k: nat): real
    requires k <= NumWindows(|coords|)
  {
    if k == 0 then 0.0
    else
      ChunkShape(coords, k - 1);
      var answer := osrm(Chunk(coords, k - 1));
      ReportedDistance(coords, osrm, k - 1) + (if answer.Some? then answer.value.distance else 0.0)
  }

  /** total_dist sums exactly the distances of the successful windows. */
  lemma {:induction false} StitchDistance(coords: seq<Coord>, osrm: seq<Coord> -> Option<OsrmRoute>, k: nat)
    requires k <= NumWindows(|coords|)
    ensures StitchUpTo(coords, osrm, k).1 == ReportedDistance(coords, osrm, k)
  {
    if k > 0 {
      StitchDistance(coords, osrm, k - 1);
    }
  }

  /** The points of the first k windows, one after the other. */
  function Concatenation(coords: seq<Coord>, k: nat): seq<Coord>
    requires k <= NumWindows(|coords|)
  {
    if k == 0 then []
    else
      ChunkShape(coords, k - 1);
      Concatenation(coords, k - 1) + Chunk(coords, k - 1)
  }

  /**
   * When every request fails the polyline is the windows' points laid end
   * to end, each shared boundary point twice, and the distance is 0.
   */
  lemma {:induction false} AllFailed(coords: seq<Coord>, osrm: seq<Coord> -> Option<OsrmRoute>, k: nat)
    requires k <= NumWindows(|coords|)
    requires forall j :: 0 <= j < k ==> Stride * j < |coords| && osrm(Chunk(coords, j)).None?
    ensures StitchUpTo(coords, osrm, k) == (Concatenation(coords, k), 0.0)
    ensures k >= 1 ==> |Concatenation(coords, k)| == ChunkSize * (k - 1) + |Chunk(coords, k - 1)|
  {
    if k > 0 {
      AllFailed(coords, osrm, k - 1);
      ChunkShape(coords, k - 1);
      assert Concatenation(coords, k) == Concatenation(coords, k - 1) + Chunk(coords, k - 1);
      if k >= 2 {
        ChunkShape(coords, k - 2);
        FullWindowsCore(k - 1, |Concatenation(coords, k - 1)|, |Chunk(coords, k - 2)|);
      }
    }
  }

  /** m - 1 full windows and one more full window make m full windows. */
  lemma FullWindowsCore(m: nat, len: nat, last: nat)
    requires m >= 1 && len == ChunkSize * (m - 1) + last && last == ChunkSize
    ensures len == ChunkSize * m
  {
  }

  /** With every request failing, the polyline has n + (windows - 1) points. */
  lemma AllFailedLength(coords: seq<Coord>, osrm: seq<Coord> -> Option<OsrmRoute>)
    requires |coords| >= 2
    requires forall j :: 0 <= j < NumWindows(|coords|) ==> Stride * j < |coords| && osrm(Chunk(coords, j)).None?
    ensures |StitchUpTo(coords, osrm, NumWindows(|coords|)).0| == |coords| + NumWindows(|coords|) - 1
  {
    var w := NumWindows(|coords|);
    AllFailed(coords, osrm, w);
    ChunkShape(coords, w - 1);
    LengthCore(w, |Chunk(coords, w - 1)|, |coords|, |StitchUpTo(coords, osrm, w).0|);
  }

  /** w full windows of 40 laid end to end, against the same points at stride 39. */
  lemma LengthCore(w: nat, last: nat, n: nat, total: nat)
    requires w >= 1
    requires total == ChunkSize * (w - 1) + last
    requires Stride * (w - 1) + last == n
    ensures total == n + w - 1
  {
  }

  /** An answer that follows the window's own points as the road path. */
  predicate StraightAnswer(coords: seq<Coord>, osrm: seq<Coord> -> Option<OsrmRoute>, j: nat)
    requires Stride * j < |coords|
  {
    var answer := osrm(Chunk(coords, j));
    answer.Some? && SwapAll(answer.value.geometry) == Chunk(coords, j)
  }

  /** Points up to a + 1, then a window starting at a without its first point: the points up to b. */
  lemma SpliceWindow(s: seq<Coord>, a: nat, b: nat)
    requires a < b <= |s|
    ensures s[..a + 1] + s[a..b][1..] == s[..b]
  {
    assert s[a..b][1..] == s[a + 1..b];
  }

  /**
   * The overlap and the dropped first point fit together: when every
   * window's road path is its own points, the stitched polyline after k
   * windows is the points up to the end of window k - 1, and after all
   * windows it is the route's coordinates exactly, with no point doubled.
   */
  lemma {:induction false} StitchStraight(coords: seq<Coord>, osrm: seq<Coord> -> Option<OsrmRoute>, k: nat)
    requires 1 <= k <= NumWindows(|coords|)
    requires forall j :: 0 <= j < k ==> Stride * j < |coords| && StraightAnswer(coords, osrm, j)
    ensures StitchUpTo(coords, osrm, k).0 == coords[..Min(Stride * (k - 1) + ChunkSize, |coords|)]
  {
    ChunkShape(coords, k - 1);
    var start := Stride * (k - 1);
    var stop := Min(start + ChunkSize, |coords|);
    var chunk := Chunk(coords, k - 1);
    assert chunk == coords[start..stop];
    assert StraightAnswer(coords, osrm, k - 1);
    var route := osrm(chunk).value;
    assert SwapAll(route.geometry) == chunk;
    if k == 1 {
      assert StitchUpTo(coords, osrm, 0).0 == [];
      assert coords[0..stop] == coords[..stop];
    } else {
      StitchStraight(coords, osrm, k - 1);
      ChunkShape(coords, k - 2);
      var prev := StitchUpTo(coords, osrm, k - 1).0;
      assert Stride * (k - 2) + ChunkSize == start + 1;
      assert prev == coords[..start + 1];
      assert Addition(prev, route) == chunk[1..];
      SpliceWindow(coords, start, stop);
    }
  }

  lemma StitchStraightAll(coords: seq<Coord>, osrm: seq<Coord> -> Option<OsrmRoute>)
    requires |coords| >= 2
    requires forall j :: 0 <= j < NumWindows(|coords|) ==> Stride * j < |coords| && StraightAnswer(coords, osrm, j)
    ensures StitchUpTo(coords, osrm, NumWindows(|coords|)).0 == coords
  {
    var w := NumWindows(|coords|);
    StitchStraight(coords, osrm, w);
    ChunkShape(coords, w - 1);
  }

  /**
   * get_real_road_geometry: fewer than two points come back unchanged with
   * distance 0; otherwise the windows are requested in order and stitched
   * as StitchUpTo describes.
   */
  method GetRealRoadGeometry(coords: seq<Coord>, osrm: seq<Coord> -> Option<OsrmRoute>)
    returns (fullPath: seq<Coord>, totalDist: real)
    ensures |coords| < 2 ==> fullPath == coords && totalDist == 0.0
    ensures |coords| >= 2 ==> (fullPath, totalDist) == StitchUpTo(coords, osrm, NumWindows(|coords|))
  {
    if |coords| < 2 {
      return coords, 0.0;
    }
    fullPath, totalDist := [], 0.0;
    var i, j := 0, 0;
    while i < |coords| - 1
      invariant i == Stride * j && j <= NumWindows(|coords|)
      invariant (i < |coords| - 1) == (j < NumWindows(|coords|))
      invariant (fullPath, totalDist) == StitchUpTo(coords, osrm, j)
      decreases |coords| - i
    {
      fullPath, totalDist := StitchWindow(coords, osrm, i, j, fullPath, totalDist);
      i, j := i + Stride, j + 1;
      WindowCount(|coords|, j);
    }
  }

  /** One pass of the loop: request window j, starting at point i, and add its answer to the polyline and distance. */
  method StitchWindow(coords: seq<Coord>, osrm: seq<Coord> -> Option<OsrmRoute>, i: nat, j: nat,
                      path: seq<Coord>, dist: real)
    returns (fullPath: seq<Coord>, totalDist: real)
    requires j < NumWindows(|coords|) && i == Stride * j
    requires (path, dist) == StitchUpTo(coords, osrm, j)
    ensures (fullPath, totalDist) == StitchUpTo(coords, osrm, j + 1)
  {
    ChunkShape(coords, j);
    fullPath, totalDist := path, dist;
    var chunk := coords[i .. Min(i + ChunkSize, |coords|)];
    assert chunk == Chunk(coords, j);
    var answer := osrm(chunk);
    if answer.Some? {
      var pathChunk := SwapAll(answer.value.geometry);
      if fullPath == [] {
        fullPath := fullPath + pathChunk;
      } else if pathChunk != [] {
        fullPath := fullPath + pathChunk[1..];
      }
      assert path + [] == path;
      assert fullPath == path + Addition(path, answer.value);
      totalDist := totalDist + answer.value.distance;
    } else {
      fullPath := fullPath + chunk;
    }
  }
}
