/**
  The planner `calcular_mejor_camino` (TPO.py:181-284) and the pipeline of
  `main` that feeds it the all-pairs matrix (TPO.py:302-305).

  Packages are aggregated per destination, the destinations are split into
  trips, and the hub search evaluates every subset against those trips.
  The trips do not depend on the subset, so the source computing them at
  every leaf is the same as computing them once.

  If the first destination's demand exceeds the capacity the partition
  starts with an empty trip and the source indexes its first element,
  which raises; that outcome is `IndexFault`.
 */
module Planner {
  import opened ExtReal
  import opened ShortestPaths
  import opened Demand
  import opened Trips
  import opened Routing
  import opened HubSearch

  /** The five values `calcular_mejor_camino` returns. */
  datatype Solution = Solution(route: seq<nat>, hubs: seq<nat>, cost: Dist, distance: NonNeg, hubCost: Dist)

  datatype Outcome = Solved(sol: Solution) | IndexFault

  /** The destinations of each trip, as the evaluator walks them. */
  function TripDests(trips: seq<Trip>): (r: seq<seq<nat>>)
    ensures |r| == |trips| && forall a :: 0 <= a < |trips| ==> r[a] == Dests(trips[a])
  {
    seq(|trips|, a requires 0 <= a < |trips| => Dests(trips[a]))
  }

  /** The trips the planner drives for a package list. */
  function PlannedTrips(dests: seq<nat>, capacity: int): seq<Trip>
  {
    Partition(Aggregate(dests), capacity)
  }

  predicate HasEmptyTrip(trips: seq<Trip>)
  {
    exists a :: 0 <= a < |trips| && |trips[a]| == 0
  }

  /** `mejor_costo - mejor_distancia`: infinite when no subset was
      recorded. */
  function HubCost(b: Best): (c: Dist)
    requires Consistent(b)
    ensures c.Fin? <==> b.cost.Fin?
    ensures c.Fin? ==> c.r == CostSum(b.hubs)
  {
    if b.cost == Inf then Inf else Fin(b.cost.r - b.distance)
  }

  /** Every destination of every trip is one of the package destinations. */
  lemma TripsInNet(dests: seq<nat>, capacity: int, n: nat)
    requires NodesIn(dests, n)
    ensures forall a, x :: 0 <= a < |PlannedTrips(dests, capacity)| && 0 <= x < |PlannedTrips(dests, capacity)[a]| ==>
              PlannedTrips(dests, capacity)[a][x].dest in dests
  {
    var agg := Aggregate(dests);
    var trips: seq<Trip> := PlannedTrips(dests, capacity);
    ScanFlatten(agg, capacity, [], 0);
    forall a: int, x: int | 0 <= a < |trips| && 0 <= x < |trips[a]|
      ensures trips[a][x].dest in dests
    {
      InFlatten(trips, a, x);
      AggregateMember(dests, trips[a][x]);
    }
  }

  lemma {:induction false} InFlatten(trips: seq<Trip>, a: nat, x: nat)
    requires a < |trips| && x < |trips[a]|
    ensures trips[a][x] in Flatten(trips)
    decreases a
  {
    if a > 0 {
      InFlatten(trips[1..], a - 1, x);
    }
  }

  /** Without an empty trip the trips are fit for evaluation. */
  lemma TripsReady(net: Net, dests: seq<nat>, capacity: int)
    requires ValidNet(net) && NodesIn(dests, net.n)
    requires !HasEmptyTrip(PlannedTrips(dests, capacity))
    ensures Ready(net, TripDests(PlannedTrips(dests, capacity)))
  {
    var trips := PlannedTrips(dests, capacity);
    TripsInNet(dests, capacity, net.n);
    forall a | 0 <= a < |trips|
      ensures |Dests(trips[a])| > 0 && NodesIn(Dests(trips[a]), net.n)
    {
      assert |trips[a]| > 0;
      forall x | 0 <= x < |trips[a]|
        ensures Dests(trips[a])[x] < net.n
      {
        assert trips[a][x].dest in dests;
      }
    }
  }

  /** `calcular_mejor_camino` on the matrix `net.dist`. */
  function Plan(net: Net, capacity: int, hubs: seq<Hub>, dests: seq<nat>): Outcome
    requires ValidNet(net) && HubsIn(hubs, net.n) && NodesIn(dests, net.n)
  {
    var trips := PlannedTrips(dests, capacity);
    if HasEmptyTrip(trips) then IndexFault
    else
      TripsReady(net, dests, capacity);
      var r := Explore(net, TripDests(trips), hubs);
      ExploreFirst(net, TripDests(trips), hubs);
      Solved(Solution(r.route, Ids(r.hubs), r.cost, r.distance, HubCost(r)))
  }

  /** The destination of the first package comes first in the demand. */
  lemma AggregateHead(dests: seq<nat>)
    requires |dests| > 0
    ensures |Aggregate(dests)| > 0
    ensures Aggregate(dests)[0] == DestCount(dests[0], multiset(dests)[dests[0]])
  {
    var agg := Aggregate(dests);
    assert dests[0] in Dests(agg);
    var a :| 0 <= a < |agg| && Dests(agg)[a] == dests[0];
    assert FirstIndex(dests, dests[0]) == 0;
  }

  /** The planner fails exactly when the destination of the first package
      listed receives more packages than the truck carries. */
  lemma PlanFaultIff(net: Net, capacity: int, hubs: seq<Hub>, dests: seq<nat>)
    requires ValidNet(net) && HubsIn(hubs, net.n) && NodesIn(dests, net.n)
    ensures Plan(net, capacity, hubs, dests) == IndexFault <==>
              |dests| > 0 && multiset(dests)[dests[0]] > capacity
  {
    EmptyTripIff(Aggregate(dests), capacity);
    if |dests| > 0 {
      AggregateHead(dests);
    }
  }

  /** The solution found is the record of a hub subset: its hubs in list
      order, its route and distance as evaluated for those hubs, its cost
      distance plus activation, and no subset costs less. */
  lemma PlanOptimal(net: Net, capacity: int, hubs: seq<Hub>, dests: seq<nat>)
    requires ValidNet(net) && HubsIn(hubs, net.n) && NodesIn(dests, net.n)
    requires Plan(net, capacity, hubs, dests).Solved?
    ensures var sol, trips := Plan(net, capacity, hubs, dests).sol, PlannedTrips(dests, capacity);
      && Ready(net, TripDests(trips))
      && (forall m :: |m| == |hubs| ==> Le(sol.cost, SubsetCost(net, TripDests(trips), hubs, m)))
      && (sol.cost != Inf ==> exists m :: |m| == |hubs| && Chosen(net, TripDests(trips), hubs, m, sol))
  {
    var trips := PlannedTrips(dests, capacity);
    var ts := TripDests(trips);
    TripsReady(net, dests, capacity);
    ExploreOptimal(net, ts, hubs);
    var r := Explore(net, ts, hubs);
    var sol := Plan(net, capacity, hubs, dests).sol;
    if sol.cost != Inf {
      var x :| FirstMinimalMask(net, ts, hubs, x, r);
      MasksCount(|hubs|);
      var m := Masks(|hubs|)[x];
      assert Chosen(net, ts, hubs, m, sol);
    }
  }

  /** The solution is what the subset mask `m` yields. */
  ghost predicate Chosen(net: Net, trips: seq<seq<nat>>, hubs: seq<Hub>, m: seq<bool>, sol: Solution)
    requires Ready(net, trips) && HubsIn(hubs, net.n)
  {
    var s := Select(hubs, m);
    var ev := Evaluate(net, trips, Ids(s));
    && sol.hubs == Ids(s)
    && sol.cost == SubsetCost(net, trips, hubs, m) == Add(ev.distance, Fin(CostSum(s)))
    && ev.distance == Fin(sol.distance)
    && sol.route == ev.route
    && sol.hubCost == Fin(CostSum(s))
  }

  /** A route with a finite cost leaves from the depot and passes every
      package's destination. */
  lemma PlanDeliversAll(net: Net, capacity: int, hubs: seq<Hub>, dests: seq<nat>)
    requires ValidNet(net) && HubsIn(hubs, net.n) && NodesIn(dests, net.n)
    requires Plan(net, capacity, hubs, dests).Solved? && Plan(net, capacity, hubs, dests).sol.cost != Inf
    ensures var route := Plan(net, capacity, hubs, dests).sol.route;
      |route| > 0 && route[0] == net.depot && forall d :: d in dests ==> d in route
  {
    var ts := TripDests(PlannedTrips(dests, capacity));
    var sol := Plan(net, capacity, hubs, dests).sol;
    PlanOptimal(net, capacity, hubs, dests);
    var m :| |m| == |hubs| && Chosen(net, ts, hubs, m, sol);
    var s := Select(hubs, m);
    assert HubsIn(s, net.n);
    RouteCovers(net, ts, Ids(s));
    DestsInTrips(dests, capacity);
  }

  /** Every package's destination is a destination of some trip. */
  lemma DestsInTrips(dests: seq<nat>, capacity: int)
    ensures var ts := TripDests(PlannedTrips(dests, capacity));
      forall d :: d in dests ==> exists a, x :: 0 <= a < |ts| && 0 <= x < |ts[a]| && ts[a][x] == d
  {
    var trips := PlannedTrips(dests, capacity);
    var ts := TripDests(trips);
    var agg := Aggregate(dests);
    ScanFlatten(agg, capacity, [], 0);
    forall d | d in dests
      ensures exists a, x :: 0 <= a < |ts| && 0 <= x < |ts[a]| && ts[a][x] == d
    {
      var y := AggregateIndex(dests, d);
      var a, x := FlattenIndex(trips, agg[y]);
      assert ts[a][x] == d;
    }
  }

  /** Where an element of the flattened trips sits. */
  lemma {:induction false} FlattenIndex(trips: seq<Trip>, e: DestCount) returns (a: nat, x: nat)
    requires e in Flatten(trips)
    ensures a < |trips| && x < |trips[a]| && trips[a][x] == e
    decreases |trips|
  {
    if e in trips[0] {
      a := 0;
      x :| 0 <= x < |trips[0]| && trips[0][x] == e;
    } else {
      var a', x' := FlattenIndex(trips[1..], e);
      a, x := a' + 1, x';
    }
  }

  /** With no packages the planner returns the route `[depot]` with
      nothing activated and every metric zero. */
  lemma PlanNoPackages(net: Net, capacity: int, hubs: seq<Hub>)
    requires ValidNet(net) && HubsIn(hubs, net.n)
    ensures Plan(net, capacity, hubs, []) == Solved(Solution([net.depot], [], Zero, 0.0, Zero))
  {
    assert PlannedTrips([], capacity) == [];
    assert TripDests([]) == [];
    ExploreNoTrips(net, hubs);
    assert Ids([]) == [];
  }

  /** With no hubs the planner activates none and its cost is the distance
      of the depot-only evaluation. */
  lemma PlanNoHubs(net: Net, capacity: int, dests: seq<nat>)
    requires ValidNet(net) && NodesIn(dests, net.n)
    requires Plan(net, capacity, [], dests).Solved?
    ensures Ready(net, TripDests(PlannedTrips(dests, capacity)))
    ensures var sol := Plan(net, capacity, [], dests).sol;
      && sol.hubs == []
      && sol.cost == Evaluate(net, TripDests(PlannedTrips(dests, capacity)), []).distance
  {
    TripsReady(net, dests, capacity);
    ExploreNoHubs(net, TripDests(PlannedTrips(dests, capacity)));
  }

  /** The program: the shortest-path matrix of the graph, then the planner
      on it. */
  method Solve(n: nat, depot: nat, capacity: int, hubs: seq<Hub>, dests: seq<nat>, edges: seq<Edge>)
    returns (dist: Matrix, o: Outcome)
    requires depot < n && HubsIn(hubs, n) && NodesIn(dests, n) && EdgesIn(edges, n)
    ensures ShortestPathMatrix(dist, n, edges)
    ensures ValidNet(Net(n, dist, depot)) && o == Plan(Net(n, dist, depot), capacity, hubs, dests)
    ensures o == IndexFault <==> |dests| > 0 && multiset(dests)[dests[0]] > capacity
  {
    dist := FloydWarshall(n, edges);
    var net := Net(n, dist, depot);
    o := Plan(net, capacity, hubs, dests);
    PlanFaultIff(net, capacity, hubs, dests);
  }
}
