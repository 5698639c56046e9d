# School-bus route bookkeeping, in Dafny

This project models the integer and text bookkeeping around a school-bus
routing run from RouteOptimization: a capacitated vehicle-routing problem with
time windows, solved by OR-tools. The solver, the geocoding service, the OSRM
road router and the database are all outside the model. The code that prepares
their inputs and reads back their outputs is modelled and proved.

- `common.dfy` (`Common`) holds `Option`, `Result`, coordinates and time windows.
- `text.dfy` (`Text`) renders natural numbers in decimal and reads them back,
  and renders Python's `"{:02d}"` field.
- `demand_preprocessor.dfy` (`DemandPreprocessor`) covers the stop splitting
  and the fleet-trip extension of `run_optimization`. The split limit is
  `min(25, smallest capacity)`. A stop over the limit becomes
  `ceil(demand / limit)` parts, and each of demand, students and staff is
  spread over the parts. The fleet is then copied round by round until the
  seats cover the riders or six rounds exist.
- `road_geometry.dfy` (`RoadGeometry`) models `get_real_road_geometry`. It
  cuts a route into overlapping 40-point windows, asks OSRM about each one and
  stitches the answers together.
- `route_extractor.dfy` (`RouteExtractor`) covers what `optimize_routes` does
  around the solver. It gives each node its time window and the vehicles'
  start and end the depot window. It then walks every vehicle's plan into
  steps with cumulative distances, keeping only vehicles that visit a stop.
- `sample_run.dfy` (`SampleRun`) covers `format_time` and the loop of
  `run_demo` that lines up each stop's location, demand and window.
- `geocode_stops.dfy` (`GeocodeStops`) covers the Qatar bounding box, the
  normalisation of stop names, the order of the three search strategies, the
  name cache and the choice between a geocoded and a database coordinate.
- `distance.dfy` (`Distance`) builds the n-by-n distance matrix, one freshly
  allocated array per row.

Each loop of the source is a Dafny method with a `while` or `for` loop. Its
postcondition ties the result to a specification function, and lemmas prove
what the source promises about that function. Services the code calls are
function parameters: haversine, the geocoder, OSRM, and the solver's answer,
which is one plan per vehicle.

Python's `//` and `%` floor, and Dafny's Euclidean `/` and `%` agree with them
for the positive divisors used here, including `format_time`'s division of
negative minutes by 60. `math.ceil(d / limit)` is modelled as
`(d + limit - 1) / limit`, which is exact on integers.

## Model

| member | source | states |
|---|---|---|
| DemandPreprocessor.SplitLimit | real_world_implementation/3_run_optimization.py:92-93 | The limit is at most 25 and at most every vehicle's capacity, and it equals 25 or some vehicle's capacity: it is `min(25, smallest capacity)`. |
| DemandPreprocessor.ZeroCapacityZeroLimit | real_world_implementation/3_run_optimization.py:92-93 | One vehicle without seats makes the split limit 0. |
| DemandPreprocessor.NumParts | real_world_implementation/3_run_optimization.py:99 | The part count is the ceiling: `parts * limit >= demand` and `(parts - 1) * limit < demand`. |
| DemandPreprocessor.SharesSumExactly | real_world_implementation/3_run_optimization.py:103-105 | The shares `x // parts + (1 if i < x % parts else 0)` over all parts add up to exactly x. |
| DemandPreprocessor.ShareOrder | real_world_implementation/3_run_optimization.py:103-105 | Later parts never get more than earlier ones, and any two shares differ by at most one. |
| DemandPreprocessor.PartDemandBounded | real_world_implementation/3_run_optimization.py:98-103 | A demand above the limit gives at least 2 parts, and every part's demand is between 1 and the limit. |
| DemandPreprocessor.SplitRowTotal | real_world_implementation/3_run_optimization.py:100-105 | Cutting a row keeps each of demand, students and staff equal to the sum over its parts. |
| DemandPreprocessor.SplitRowSpec | real_world_implementation/3_run_optimization.py:98-109 | A row over the limit becomes `ceil(demand/limit) >= 2` parts with demands in 1..limit. The three column totals are kept, and shares are non-increasing and differ by at most one. Part i is named "<name> (Part i+1)" with the row's id and location. Only part 0 keeps the rider ids; later parts get "". |
| DemandPreprocessor.PartNamesDistinct | real_world_implementation/3_run_optimization.py:107 | Two parts of one row get the same name "<name> (Part i+1)" exactly when they are the same part. |
| DemandPreprocessor.PartCategoriesNearDemand | real_world_implementation/3_run_optimization.py:103-105 | Students and staff are rounded separately from demand, so a part's students plus staff is within one of its demand. |
| DemandPreprocessor.PartCategoriesExample | real_world_implementation/3_run_optimization.py:103-105 | 13 students and 13 staff at limit 25 give a first part with demand 13 but 7 + 7 riders. |
| DemandPreprocessor.SplitAllBlocks | real_world_implementation/3_run_optimization.py:96-112 | Input row i becomes one consecutive block of output rows: itself if it is the depot or within the limit, else its parts. Blocks follow the input order with nothing interleaved. |
| DemandPreprocessor.SplitAllKeepsDepot | real_world_implementation/3_run_optimization.py:97 | Row 0, the depot, heads the split table unchanged. |
| DemandPreprocessor.SplitAllPreservesTotals | real_world_implementation/3_run_optimization.py:96-112 | The split table has the same demand, student and staff totals as the input. |
| DemandPreprocessor.SplitAllBounded | real_world_implementation/3_run_optimization.py:96-112 | After splitting, every row except the depot has demand at most the limit. |
| DemandPreprocessor.SplitStops | real_world_implementation/3_run_optimization.py:92-112 | The splitting loop fails exactly when the limit is 0 and a non-depot row has riders. Otherwise it returns the split table that the lemmas above describe. |
| DemandPreprocessor.SplitRows | real_world_implementation/3_run_optimization.py:96-112 | For a given limit, the loop fails exactly when the limit is 0 and a non-depot row has riders; otherwise it yields the split table. |
| DemandPreprocessor.SplitAllStep | real_world_implementation/3_run_optimization.py:96-112 | One more input row fails the table only if it is a non-depot row with riders at limit 0; otherwise the table grows by that row's block. |
| DemandPreprocessor.AppendParts | real_world_implementation/3_run_optimization.py:99-107 | The inner loop appends exactly the row's parts, in order, after what was there. |
| DemandPreprocessor.ExpandTotal | real_world_implementation/3_run_optimization.py:96-109 | The block one row becomes has that row's demand, students and staff as totals. |
| DemandPreprocessor.ExtendedFleetLength | real_world_implementation/3_run_optimization.py:116-120 | After mult rounds the fleet has mult * n entries. |
| DemandPreprocessor.EntryAfterRounds | real_world_implementation/3_run_optimization.py:119-120 | Right after the first k - 1 rounds, offset i holds vehicle i's copy for round k, whatever the later rounds. |
| DemandPreprocessor.ExtendedFleetShape | real_world_implementation/3_run_optimization.py:116-120 | After mult rounds the fleet has mult * n vehicles and mult times the seats, and its first n entries are the original fleet. |
| DemandPreprocessor.ExtendedFleetEntry | real_world_implementation/3_run_optimization.py:119-120 | Entry (k-1)*n + i of the extended fleet is vehicle i with the same seats, named "<name> (Trip k)". |
| DemandPreprocessor.TripNamesDistinct | real_world_implementation/3_run_optimization.py:120 | Copies of one vehicle for two trip rounds get the same "<name> (Trip k)" exactly when the rounds are equal. |
| DemandPreprocessor.TripRoundCapacity | real_world_implementation/3_run_optimization.py:120 | A trip round has the same seats as the original fleet. |
| DemandPreprocessor.TripRoundsLeast | real_world_implementation/3_run_optimization.py:117-119 | The round count is in 1..6. It covers the riders unless it is 6, and no smaller count covers them. |
| DemandPreprocessor.TripRoundsUnique | real_world_implementation/3_run_optimization.py:117-119 | Any count that satisfies the loop's exit condition and failed it at every earlier count is that round count. |
| DemandPreprocessor.AppendTripRound | real_world_implementation/3_run_optimization.py:120 | The inner loop appends each original vehicle's tagged copy, in order. |
| DemandPreprocessor.ExtendFleet | real_world_implementation/3_run_optimization.py:114-120 | The loop stops at the least sufficient round count, capped at 6. It returns the original fleet followed by the tagged copies, with at least as many seats as riders unless the cap was reached. |
| DemandPreprocessor.ExtendFleetExit | real_world_implementation/3_run_optimization.py:117-119 | When the while condition is false at a count in 1..6 and held at every earlier count, that count is the least sufficient one, and the fleet built by then has count * n entries, at least n. |
| DemandPreprocessor.FleetScenario | real_world_implementation/3_run_optimization.py:117-120 | One 20-seat vehicle and 50 riders give 3 rounds and 3 fleet entries. |
| DemandPreprocessor.PrepareInstance | real_world_implementation/3_run_optimization.py:92-120 | Splitting then extending fails exactly as splitting does. Because splitting keeps the total demand, the fleet is extended for the unsplit demand total. |
| RoadGeometry.WindowCount | real_world_implementation/3_run_optimization.py:23 | `range(0, n - 1, 39)` yields the window start 39 * j exactly for j below the window count. |
| RoadGeometry.ChunkShape | real_world_implementation/3_run_optimization.py:22-24 | Every window has 2 to 40 points and every window but the last has 40. Each window's last point is the next window's first, and the last window ends at the route's last point. |
| RoadGeometry.StitchDistance | real_world_implementation/3_run_optimization.py:33-36 | The total distance is the sum of the distances of the windows the service answered; failed windows add nothing. |
| RoadGeometry.AllFailed | real_world_implementation/3_run_optimization.py:35-36 | When every request fails, the path is the windows' points laid end to end and the distance is 0. |
| RoadGeometry.AllFailedLength | real_world_implementation/3_run_optimization.py:22-36 | When every request fails, each shared boundary point appears twice: the path has n + windows - 1 points. |
| RoadGeometry.StitchStraight | real_world_implementation/3_run_optimization.py:32-33 | When each answer's path is its window's own points, dropping the first point of every window after the first gives the route up to the current window's end. |
| RoadGeometry.StitchStraightAll | real_world_implementation/3_run_optimization.py:22-37 | When each answer's path is its window's own points, the stitched path is exactly the input coordinates, with no point lost or doubled. |
| RoadGeometry.GetRealRoadGeometry | real_world_implementation/3_run_optimization.py:20-37 | Fewer than 2 points come back unchanged with distance 0. Otherwise the loop requests the windows in order and builds the polyline and distance of the stitching fold. |
| RoadGeometry.StitchWindow | real_world_implementation/3_run_optimization.py:24-36 | One pass of the loop takes the polyline and distance after j windows to those after j + 1: the road path minus its first point once the polyline is non-empty, or the window's own points when the request fails. |
| RouteExtractor.TimeWindowConstraints | optimizer.py:57-68 | Every node except the depot gets its own window and no other, the depot node gets none, and every vehicle's start and end get the depot's window. Nothing else is added, and the count is nodes - 1 + 2 * vehicles. |
| RouteExtractor.PlanStepsSpec | optimizer.py:97-128 | The first step has distance 0, and each step adds its arc cost / 1000. The last step is the end node at total cost / 1000. Steps carry an arrival time exactly when a time dimension exists. |
| RouteExtractor.KeptBeforeSpec | optimizer.py:94-135 | The kept routes have strictly increasing vehicle ids below the count, each with its plan's full steps and total cost. A vehicle is kept exactly when its plan has more than 2 steps. |
| RouteExtractor.KeptBeforeOrdered | optimizer.py:94-135 | Routes kept from the first v vehicles have ids below v, in strictly increasing order. |
| RouteExtractor.KeptBeforeRoutes | optimizer.py:94-135 | Every kept route belongs to a vehicle with more than 2 steps and carries that plan's full steps and total cost. |
| RouteExtractor.KeptBeforeComplete | optimizer.py:94-135 | Every vehicle whose plan has more than 2 steps has a kept route. |
| RouteExtractor.WalkPlan | optimizer.py:95-128 | The inner walk produces the plan's steps, and route_distance ends as the sum of its arc costs. |
| RouteExtractor.ExtractRoutes | optimizer.py:91-137 | No solution gives no routes. Otherwise the routes are those kept in vehicle order: increasing ids below the vehicle count, each with more than 2 steps. |
| RouteExtractor.OptimizeRoutes | optimizer.py:37-137 | Without both time windows and travel times no time constraints are installed; with both, exactly the wiring of TimeWindowConstraints is installed (own window per non-depot node, depot window on every vehicle's start and end, nothing else). The routes are the extracted ones, timed exactly when a time dimension exists. |
| SampleRun.FormatTimeLayout | sample_run.py:9-14 | When the hour field has two digits, the result is "HH:MM AM" or "HH:MM PM" with the hour 6 + m // 60 (less 12 above 12) and the minutes m % 60, AM exactly when the hour is below 12. |
| SampleRun.FormatTimeReadsBack | sample_run.py:7-14 | Reading a rendered time back as a 12-hour clock gives the same time from 00:00 to 23:59. Hour 24 prints as "12 PM" and reads back as noon. Any other time is not a valid clock string. |
| SampleRun.ReadRendered | sample_run.py:7-14 | A rendering whose hour field is 0..99 reads back through its fields: None when the shown hour is over 12, else the 24-hour reading of the shown hour and AM/PM, plus the minutes. |
| SampleRun.FormatTimeExamples | sample_run.py:7-14 | 0 gives "06:00 AM", 90 "07:30 AM", 375 "12:15 PM", and 1140 "13:00 PM" (an hour above 12 is reduced only once). |
| SampleRun.StopWindow | sample_run.py:46-51 | Stop id 0 gets the depot window (0, 180) whatever else holds. A stop with staff gets (15, 120) and any other stop (30, 135). Every window is non-empty and a non-depot window lies strictly inside the depot's. |
| SampleRun.Riders | sample_run.py:24-44 | A stop's rider count is 0 exactly when nobody boards there. |
| SampleRun.BuildStopInputs | sample_run.py:42-51 | Locations, demands and windows are parallel to the stop rows, one entry per row in order. Demand is students plus staff at the stop, and a stop with the staff window has demand above 0. |
| Text.ZeroPad2Shape | sample_run.py:14 | `"{:02d}"` gives exactly two digits that read back as n for 0..99, three or more characters from 100, and a leading '-' for negatives. |
| GeocodeStops.IsInQatar | real_world_implementation/2_geocode_stops.py:11-19 | True exactly when both values are present and inside the inclusive box 24.0..26.5 by 50.0..52.0. The zero test only adds the missing-value case. |
| GeocodeStops.IsInQatarExamples | real_world_implementation/2_geocode_stops.py:11-19 | The box's corners and the fallback school coordinate are inside; (0, 0) and a missing latitude are not. |
| GeocodeStops.WordsAreClean | real_world_implementation/2_geocode_stops.py:33-34 | Splitting text made of A-Z, 0-9 and whitespace gives non-empty words of A-Z and 0-9. |
| GeocodeStops.JoinIsClean | real_world_implementation/2_geocode_stops.py:34 | Joining such words with single spaces gives text with single spaces and none at either end. |
| GeocodeStops.CleanNameForm | real_world_implementation/2_geocode_stops.py:25-34 | Any cleaned name has only A-Z, 0-9 and single spaces, with no space at either end. |
| GeocodeStops.CleanStopName | real_world_implementation/2_geocode_stops.py:21-34 | A non-string gives "". Otherwise the loop removes each noise word in list order, then sanitises and collapses the spaces; the result is clean search text. |
| GeocodeStops.NoiseOrderExample | real_world_implementation/2_geocode_stops.py:28-30 | "OPP" is removed before "OPPOSITE" is looked for, so "OPPOSITE" becomes "OSITE". |
| GeocodeStops.RemoveAbsent | real_world_implementation/2_geocode_stops.py:30 | Removing a word that does not occur leaves the text unchanged. |
| GeocodeStops.CleanNameFixedPoint | real_world_implementation/2_geocode_stops.py:26-34 | Clean search text without noise words is its own cleaned name, so cleaning it a second time changes nothing. |
| GeocodeStops.FirstHitSpec | real_world_implementation/2_geocode_stops.py:46-59 | The result is (0, 0) exactly when no query hits inside the box. Otherwise it is the answer to a query inside the box, and no earlier query hit. |
| GeocodeStops.SmartGeocode | real_world_implementation/2_geocode_stops.py:36-59 | The loop tries "<name>, Qatar", "<name>, Doha, Qatar" and "<cleaned name>, Qatar" in that order and returns the first hit inside the box, or (0, 0). |
| GeocodeStops.GeocodeAll | real_world_implementation/2_geocode_stops.py:87-101 | The cache holds exactly the names that are present (not NaN), each mapped to its search result. |
| GeocodeStops.FinalCoordinateOneSource | real_world_implementation/2_geocode_stops.py:106-117 | Latitude and longitude are both from an in-box geocoded location or both from the database row. A name missing from the cache takes the database values. |
| Distance.CreateDistanceMatrix | distance.py:19-33 | The matrix has n distinct freshly allocated rows of length n. The diagonal is 0, and cell (i, j) off the diagonal is `haversine(lat_i, lon_i, lat_j, lon_j)` in that argument order. |

## Left out

- The OR-tools model and search: arc-cost scaling, the capacity and time dimensions, finalizers and search parameters. The solver's answer is a parameter of one plan per vehicle, with nodes, integer arc costs and least arrival times.
- Floating point: coordinates, distances and the cumulative distance `total / 1000` are exact reals. The haversine formula is a parameter, so nothing is claimed about it (no symmetry).
- The network and the clock: Nominatim, the OSRM HTTP request and JSON parsing, and `time.sleep`. The geocoder and OSRM are deterministic function parameters, and any failure, timeout or malformed reply is None.
- `GeocodeStops.UpperChar`: uppercases ASCII letters only. Python's full Unicode `upper()` (for instance "ß" to "SS") is not modelled.
- `GeocodeStops.IsSpace`: ASCII and the separators `\x1c`-`\x1f` only, not the other Unicode whitespace that `str.split` and `\s` accept.
- A NaN name or database coordinate is None. A name that is not a string (such as a number) is treated like NaN.
- The success and failure counters of `run_geocoding` only feed printed statistics.
- The pandas plumbing is not modelled: CSV loading, groupby and merge aggregation, the `active_stops` filter, and assembling the model rows (real_world_implementation/3_run_optimization.py:44-89). The split input is a sequence of explicit stop records with nat counts.
- `DemandPreprocessor.SplitStops`: requires a non-empty fleet, because the caller skips schools without vehicles. Capacities are nat, so a negative seating capacity from the data is not modelled.
- `DemandPreprocessor.SplitStops`: one error value covers the failed ceiling at a zero limit. With Python integers that failure is ZeroDivisionError; when pandas hands over numpy integers it is an OverflowError from `math.ceil` of infinity.
- `RouteExtractor.TimeWindowConstraints`: the source does not check that the window list is as long as the node list; the model indexes windows by node and requires the depot index to be in range when there are vehicles.
- The travel-time matrix of `run_demo` (float division of haversine distances), the folium maps and the HTML dashboard.
- real_world_implementation/1_fetch_raw_data.py (database extraction) and diagnostic_stops.py (a print-only diagnostic) are not part of this model.
- The case where OSRM answers and the later read of its distance raises, so that both the path and the raw window are appended, is not modelled: an answer is either complete or None.
