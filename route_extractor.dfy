/**
 * The parts of optimize_routes (optimizer.py) that surround the solver: the
 * time-window wiring it installs before solving (lines 57-68) and the walk
 * over the solution that turns each vehicle's visit order into a route with
 * cumulative distances (lines 91-137). The solver itself is not modelled:
 * its answer arrives as one VehiclePlan per vehicle, or None when it found
 * no solution.
 */
module RouteExtractor {
  import opened Common

  /**
   * What the solver reports for one vehicle: the nodes of its routing
   * indices from its start to its end, the integer arc cost between each
   * consecutive pair, and the least arrival time of each index.
   */
  datatype VehiclePlan = VehiclePlan(nodes: seq<nat>, arcCosts: seq<nat>, minArrivals: seq<int>)

  /** A plan from start to end: at least the two terminals, one cost per arc, one arrival per index. */
  predicate WellFormedPlan(p: VehiclePlan)
  {
    |p.nodes| >= 2 && |p.arcCosts| == |p.nodes| - 1 && |p.minArrivals| == |p.nodes|
  }

  /** One entry of a route: the node, the distance so far (cost units / 1000), and the arrival time when a time dimension exists. */
  datatype Step = Step(node: nat, cumulativeDistance: real, arrivalTime: Option<int>)

  datatype Route = Route(vehicleId: nat, steps: seq<Step>, distanceMeters: nat)

  /** A range the solver is told to keep a time variable in. */
  datatype TimeConstraint =
    | NodeWindow(node: nat, window: Window)
    | StartWindow(vehicle: nat, window: Window)
    | EndWindow(vehicle: nat, window: Window)

  /** The time dimension is built only when both time windows and travel times are given (Python truthiness of the two lists). */
  predicate HasTimeDimension(timeWindows: seq<Window>, travelTimes: seq<seq<int>>)
  {
    |timeWindows| > 0 && |travelTimes| > 0
  }

  // ---------------------------------------------------------------------
  // Time-window wiring
  // ---------------------------------------------------------------------

  /**
   * The constraints the wiring installs: every node other than the depot is
   * held to its own window, every vehicle's start and end to the depot's
   * window, and nothing else; one constraint per non-depot node and two per
   * vehicle.
   */
  predicate WindowsWired(cs: seq<TimeConstraint>, timeWindows: seq<Window>, depotIdx: nat, numVehicles: nat)
    requires numVehicles > 0 ==> depotIdx < |timeWindows|
  {
    && |cs| == |timeWindows| - (if depotIdx < |timeWindows| then 1 else 0) + 2 * numVehicles
    && (forall node :: 0 <= node < |timeWindows| && node != depotIdx ==>
          NodeWindow(node, timeWindows[node]) in cs)
    && (forall c :: c in cs && c.NodeWindow? ==>
          c.node < |timeWindows| && c.node != depotIdx && c.window == timeWindows[c.node])
    && (forall v :: 0 <= v < numVehicles ==>
          StartWindow(v, timeWindows[depotIdx]) in cs && EndWindow(v, timeWindows[depotIdx]) in cs)
    && (forall c :: c in cs && !c.NodeWindow? ==>
          c.vehicle < numVehicles && c.window == timeWindows[depotIdx])
  }

  /**
   * The wiring loop: the depot's window is not put on the depot node but on
   * every vehicle's start and end. Node constraints come first in node
   * order, then each vehicle's start and end in vehicle order.
   */
  method TimeWindowConstraints(timeWindows: seq<Window>, depotIdx: nat, numVehicles: nat)
    returns (cs: seq<TimeConstraint>)
    requires numVehicles > 0 ==> depotIdx < |timeWindows|
    ensures WindowsWired(cs, timeWindows, depotIdx, numVehicles)
  {
    cs := [];
    var locationIdx := 0;
    while locationIdx < |timeWindows|
      invariant 0 <= locationIdx <= |timeWindows|
      invariant |cs| == locationIdx - (if depotIdx < locationIdx then 1 else 0)
      invariant forall node :: 0 <= node < locationIdx && node != depotIdx ==>
        NodeWindow(node, timeWindows[node]) in cs
      invariant forall c :: c in cs ==>
        c.NodeWindow? && c.node < locationIdx && c.node != depotIdx && c.window == timeWindows[c.node]
    {
      if locationIdx != depotIdx {
        cs := cs + [NodeWindow(locationIdx, timeWindows[locationIdx])];
      }
      locationIdx := locationIdx + 1;
    }
    var nodeCount := |cs|;
    var vehicleId := 0;
    while vehicleId < numVehicles
      invariant 0 <= vehicleId <= numVehicles
      invariant |cs| == nodeCount + 2 * vehicleId
      invariant forall node :: 0 <= node < |timeWindows| && node != depotIdx ==>
        NodeWindow(node, timeWindows[node]) in cs
      invariant forall v :: 0 <= v < vehicleId ==>
        StartWindow(v, timeWindows[depotIdx]) in cs && EndWindow(v, timeWindows[depotIdx]) in cs
      invariant forall c :: c in cs && c.NodeWindow? ==>
        c.node < |timeWindows| && c.node != depotIdx && c.window == timeWindows[c.node]
      invariant forall c :: c in cs && !c.NodeWindow? ==>
        c.vehicle < vehicleId && c.window == timeWindows[depotIdx]
    {
      cs := cs + [StartWindow(vehicleId, timeWindows[depotIdx]), EndWindow(vehicleId, timeWindows[depotIdx])];
      vehicleId := vehicleId + 1;
    }
  }

  // ---------------------------------------------------------------------
  // Route extraction
  // ---------------------------------------------------------------------

  /** The sum of the first k arc costs: route_distance after k arcs. */
  function PrefixCost(costs: seq<nat>, k: nat): nat
    requires k <= |costs|
  {
    if k == 0 then 0 else PrefixCost(costs, k - 1) + costs[k - 1]
  }

  function Sum(costs: seq<nat>): nat
  {
    PrefixCost(costs, |costs|)
  }

  /** Step k of a plan: the node, the cost of the arcs before it in thousandths, and its arrival time when timed. */
  function StepAt(p: VehiclePlan, k: nat, timed: bool): Step
    requires WellFormedPlan(p) && k < |p.nodes|
  {
    Step(p.nodes[k], PrefixCost(p.arcCosts, k) as real / 1000.0,
         if timed then Some(p.minArrivals[k]) else None)
  }

  function PlanSteps(p: VehiclePlan, timed: bool): (steps: seq<Step>)
    requires WellFormedPlan(p)
    ensures |steps| == |p.nodes|
  {
    seq(|p.nodes|, k requires 0 <= k < |p.nodes| => StepAt(p, k, timed))
  }

  /**
   * The steps of a plan: the first has distance 0, each next one adds the
   * arc cost over 1000, the last is the end node with the whole route's
   * cost over 1000, and every step has an arrival time exactly when timed.
   */
  lemma PlanStepsSpec(p: VehiclePlan, timed: bool)
    requires WellFormedPlan(p)
    ensures var steps := PlanSteps(p, timed);
      && steps[0].cumulativeDistance == 0.0
      && (forall k :: 0 <= k < |steps| - 1 ==>
            steps[k + 1].cumulativeDistance == steps[k].cumulativeDistance + p.arcCosts[k] as real / 1000.0)
      && steps[|steps| - 1].node == p.nodes[|p.nodes| - 1]
      && steps[|steps| - 1].cumulativeDistance * 1000.0 == Sum(p.arcCosts) as real
      && (forall k :: 0 <= k < |steps| ==> steps[k].node == p.nodes[k])
      && (forall k :: 0 <= k < |steps| ==> (steps[k].arrivalTime.Some? <==> timed))
  {
  }

  /** The routes kept from vehicles 0 .. v-1: those whose plan has more than two steps, in id order. */
  function KeptBefore(plans: seq<VehiclePlan>, timed: bool, v: nat): seq<Route>
    requires forall i :: 0 <= i < |plans| ==> WellFormedPlan(plans[i])
    requires v <= |plans|
  {
    if v == 0 then []
    else
      var u := v - 1;
      KeptBefore(plans, timed, u) +
        (if |plans[u].nodes| > 2 then [Route(u, PlanSteps(plans[u], timed), Sum(plans[u].arcCosts))] else [])
  }

  /**
   * The routes kept from vehicles below v: increasing vehicle ids, each
   * below v, each route the full steps of its vehicle's plan, which has more
   * than two steps, with the plan's whole cost; and every vehicle below v
   * whose plan has more than two steps is present.
   */
  lemma {:induction false} KeptBeforeSpec(plans: seq<VehiclePlan>, timed: bool, v: nat)
    requires forall i :: 0 <= i < |plans| ==> WellFormedPlan(plans[i])
    requires v <= |plans|
    ensures var routes := KeptBefore(plans, timed, v);
      && (forall i, j :: 0 <= i < j < |routes| ==> routes[i].vehicleId < routes[j].vehicleId)
      && (forall r :: r in routes ==>
            && r.vehicleId < v
            && |plans[r.vehicleId].nodes| > 2
            && r.steps == PlanSteps(plans[r.vehicleId], timed)
            && r.distanceMeters == Sum(plans[r.vehicleId].arcCosts))
      && (forall u :: 0 <= u < v && |plans[u].nodes| > 2 ==> exists r :: r in routes && r.vehicleId == u)
  {
    KeptBeforeOrdered(plans, timed, v);
    KeptBeforeRoutes(plans, timed, v);
    KeptBeforeComplete(plans, timed, v);
  }

  /** The routes kept from vehicles 0 .. v-1 have ids below v, in increasing order. */
  lemma {:induction false} KeptBeforeOrdered(plans: seq<VehiclePlan>, timed: bool, v: nat)
    requires forall i :: 0 <= i < |plans| ==> WellFormedPlan(plans[i])
    requires v <= |plans|
    ensures forall i :: 0 <= i < |KeptBefore(plans, timed, v)| ==> KeptBefore(plans, timed, v)[i].vehicleId < v
    ensures forall i, j :: 0 <= i < j < |KeptBefore(plans, timed, v)| ==>
      KeptBefore(plans, timed, v)[i].vehicleId < KeptBefore(plans, timed, v)[j].vehicleId
  {
    if v > 0 {
      var u := v - 1;
      KeptBeforeOrdered(plans, timed, u);
      var prev := KeptBefore(plans, timed, u);
      if |plans[u].nodes| > 2 {
        var routes := prev + [Route(u, PlanSteps(plans[u], timed), Sum(plans[u].arcCosts))];
        assert KeptBefore(plans, timed, v) == routes;
        forall i, j | 0 <= i < j < |routes| ensures routes[i].vehicleId < routes[j].vehicleId {
          assert routes[i] == prev[i];
          if j < |prev| {
            assert routes[j] == prev[j];
          }
        }
      } else {
        assert KeptBefore(plans, timed, v) == prev;
      }
    }
  }

  /** Every kept route is its vehicle's full walk, for a vehicle below v with more than two steps. */
  lemma {:induction false} KeptBeforeRoutes(plans: seq<VehiclePlan>, timed: bool, v: nat)
    requires forall i :: 0 <= i < |plans| ==> WellFormedPlan(plans[i])
    requires v <= |plans|
    ensures forall r :: r in KeptBefore(plans, timed, v) ==>
            && r.vehicleId < v
            && |plans[r.vehicleId].nodes| > 2
            && r.steps == PlanSteps(plans[r.vehicleId], timed)
            && r.distanceMeters == Sum(plans[r.vehicleId].arcCosts)
  {
    if v > 0 {
      var u := v - 1;
      KeptBeforeRoutes(plans, timed, u);
      var prev := KeptBefore(plans, timed, u);
      if |plans[u].nodes| > 2 {
        var last := Route(u, PlanSteps(plans[u], timed), Sum(plans[u].arcCosts));
        assert KeptBefore(plans, timed, v) == prev + [last];
      } else {
        assert KeptBefore(plans, timed, v) == prev;
      }
    }
  }

  /** Every vehicle below v with more than two steps has a kept route. */
  lemma {:induction false} KeptBeforeComplete(plans: seq<VehiclePlan>, timed: bool, v: nat)
    requires forall i :: 0 <= i < |plans| ==> WellFormedPlan(plans[i])
    requires v <= |plans|
    ensures forall u :: 0 <= u < v && |plans[u].nodes| > 2 ==>
      exists r :: r in KeptBefore(plans, timed, v) && r.vehicleId == u
  {
    if v > 0 {
      var u := v - 1;
      KeptBeforeComplete(plans, timed, u);
      var prev := KeptBefore(plans, timed, u);
      if |plans[u].nodes| > 2 {
        var last := Route(u, PlanSteps(plans[u], timed), Sum(plans[u].arcCosts));
        var routes := prev + [last];
        assert KeptBefore(plans, timed, v) == routes;
        assert last in routes;
        forall w | 0 <= w < u && |plans[w].nodes| > 2 ensures exists r :: r in routes && r.vehicleId == w {
          var r :| r in prev && r.vehicleId == w;
          assert r in routes;
        }
      } else {
        assert KeptBefore(plans, timed, v) == prev;
      }
    }
  }

  /**
   * Walk one vehicle's plan from start to end as the source's inner loop
   * does: one step per index before the end, accumulating the arc costs,
   * then the end step.
   */
  method WalkPlan(p: VehiclePlan, timed: bool) returns (steps: seq<Step>, routeDistance: nat)
    requires WellFormedPlan(p)
    ensures steps == PlanSteps(p, timed)
    ensures routeDistance == Sum(p.arcCosts)
  {
    steps := [];
    routeDistance := 0;
    var index := 0;
    while index < |p.nodes| - 1
      invariant 0 <= index <= |p.nodes| - 1
      invariant routeDistance == PrefixCost(p.arcCosts, index)
      invariant |steps| == index
      invariant forall k :: 0 <= k < index ==> steps[k] == StepAt(p, k, timed)
    {
      var arrival := if timed then Some(p.minArrivals[index]) else None;
      steps := steps + [Step(p.nodes[index], routeDistance as real / 1000.0, arrival)];
      routeDistance := routeDistance + p.arcCosts[index];
      index := index + 1;
    }
    var arrival := if timed then Some(p.minArrivals[index]) else None;
    steps := steps + [Step(p.nodes[index], routeDistance as real / 1000.0, arrival)];
  }

  /**
   * The extraction loop: no solution gives no routes; otherwise every
   * vehicle in id order is walked and kept when its plan has more than two
   * steps, i.e. it visits a node besides its start and end.
   */
  method ExtractRoutes(solution: Option<seq<VehiclePlan>>, numVehicles: nat, timed: bool)
    returns (routes: seq<Route>)
    requires solution.Some? ==> |solution.value| == numVehicles
    requires solution.Some? ==> forall i :: 0 <= i < numVehicles ==> WellFormedPlan(solution.value[i])
    ensures solution.None? ==> routes == []
    ensures solution.Some? ==> routes == KeptBefore(solution.value, timed, numVehicles)
    ensures forall i, j :: 0 <= i < j < |routes| ==> routes[i].vehicleId < routes[j].vehicleId
    ensures forall r :: r in routes ==> r.vehicleId < numVehicles && |r.steps| > 2
  {
    routes := [];
    if solution.None? {
      return;
    }
    var plans := solution.value;
    var vehicleId := 0;
    while vehicleId < numVehicles
      invariant 0 <= vehicleId <= numVehicles
      invariant routes == KeptBefore(plans, timed, vehicleId)
    {
      var steps, routeDistance := WalkPlan(plans[vehicleId], timed);
      if |steps| > 2 {
        routes := routes + [Route(vehicleId, steps, routeDistance)];
      }
      vehicleId := vehicleId + 1;
    }
    KeptBeforeSpec(plans, timed, numVehicles);
  }

  /**
   * optimize_routes around the solver: the time-window constraints it
   * installs (none without a time dimension) and the routes it returns.
   */
  method OptimizeRoutes(
    numVehicles: nat, timeWindows: seq<Window>, travelTimes: seq<seq<int>>, depotIdx: nat,
    solution: Option<seq<VehiclePlan>>)
    returns (constraints: seq<TimeConstraint>, routes: seq<Route>)
    requires HasTimeDimension(timeWindows, travelTimes) && numVehicles > 0 ==> depotIdx < |timeWindows|
    requires solution.Some? ==> |solution.value| == numVehicles
    requires solution.Some? ==> forall i :: 0 <= i < numVehicles ==> WellFormedPlan(solution.value[i])
    ensures !HasTimeDimension(timeWindows, travelTimes) ==> constraints == []
    ensures HasTimeDimension(timeWindows, travelTimes) ==> WindowsWired(constraints, timeWindows, depotIdx, numVehicles)
    ensures solution.None? ==> routes == []
    ensures solution.Some? ==> routes == KeptBefore(solution.value, HasTimeDimension(timeWindows, travelTimes), numVehicles)
  {
    var timed := HasTimeDimension(timeWindows, travelTimes);
    constraints := [];
    if timed {
      constraints := TimeWindowConstraints(timeWindows, depotIdx, numVehicles);
    }
    routes := ExtractRoutes(solution, numVehicles, timed);
  }
}
