# Delivery planner with hub activation — a verified model

This project models the optimisation engine of `TPO.py`. That engine plans
delivery routes for one truck that leaves from a depot. It works in four
steps:

- It computes all-pairs shortest distances over an undirected road graph
  (`floyd_warshall`).
- It counts the packages per destination.
- It splits the destinations into capacity-bounded trips in a greedy scan.
- It searches every subset of the optional hubs by backtracking
  (`calcular_mejor_camino` / `probar_combinaciones`).

For each subset, every trip departs from the cheapest point among the depot
and the active hubs, and then returns to the depot. The search keeps the
subset with the smallest total, where the total is route distance plus the
activation costs of the chosen hubs.

Modules, one per stage:

- `ExtReal`: non-negative distances with an infinite top. Addition
  saturates, and the strict order behaves like float infinity.
- `ShortestPaths`: the Floyd–Warshall method, its recurrence, and the walk
  semantics of the matrix it returns.
- `Demand`: the per-destination package counts.
- `Trips`: the greedy partition, and the cut rule it satisfies.
- `Routing`: the evaluation of one hub subset, covering per-trip start
  selection, total distance and route layout.
- `HubSearch`: the depth-first subset search, its leaves, its masks, and
  what the best record ends as.
- `Planner`: `calcular_mejor_camino` as a whole, including its failure case,
  plus `Solve`, which is the matrix computation followed by the planner.

The source recomputes the trips from the demand counts at every leaf of the
search (TPO.py:211-227). That computation reads nothing the search changes,
so the model computes the trips once in `Planner.Plan` and passes the same
trips to every leaf.

In several places the code behaves differently from an idealised reading
of the planner. The model follows the code:

- **Zero packages.** The route is `[depot]`, not `[depot, depot]`. No trips
  exist, so nothing is appended after the initial depot (`Planner.PlanNoPackages`).
- **Demand order.** The per-destination demand is ordered by first
  occurrence in the iteration order of the package mapping, which is the
  order the packages were read. It is not ascending package identifier
  (`Demand.Aggregate`).
- **Ties between hub subsets.** The record kept is the first minimal subset
  in visiting order. In that order the first hub is decided first, and
  "exclude" comes before "include". This does not always favour fewer or
  earlier hubs. With three hubs, {second, third} is visited just before
  {first} (`HubSearch.VisitOrderThree`), so on a tie the two later hubs are
  kept.
- **Oversized first demand.** If the first destination alone has more
  packages than the capacity, the scan closes an empty first trip. Reading
  that trip's first element raises an exception (TPO.py:242). The model
  makes this an explicit `IndexFault` outcome (`Planner.PlanFaultIff`).

## Model

| member | source | states |
|---|---|---|
| ShortestPaths.FloydWarshall | TPO.py:149-173 | The returned n×n matrix is, entry by entry, round n of the relaxation recurrence, so the in-place update matches it. It is symmetric and never above the initial matrix, and each finite entry is the weight of some walk. Without self-loops the diagonal is zero, no walk is shorter than its entry, and the triangle inequality holds. |
| ShortestPaths.EntrySymmetric | TPO.py:159-164 | The initialisation writes each edge in both directions, so the initial entry is symmetric. Without self-loops the diagonal entry stays 0. |
| ShortestPaths.InitialShape | TPO.py:159-164 | The whole initial matrix is symmetric. Without self-loops it has a zero diagonal. |
| ShortestPaths.PivotStable | TPO.py:166-171 | Row and column k−1 do not change in round k, so reading updated values in place computes the same recurrence. |
| ShortestPaths.RelaxBelowPaths | TPO.py:166-171 | After round k, an entry is at most the weight of every walk between its endpoints whose intermediate nodes are all below k. |
| ShortestPaths.Witness | TPO.py:166-171 | After round k, every finite entry is the exact weight of a walk with intermediate nodes below k. |
| ShortestPaths.Triangle | TPO.py:166-173 | The final distances obey d[i][j] ≤ d[i][c] + d[c][j]. |
| ShortestPaths.WeightJoin | TPO.py:242-245 | A walk glued at a shared node weighs the sum of its two parts. |
| ShortestPaths.FinalMatrix | TPO.py:149-173 | Any matrix equal to round n of the recurrence over the initial matrix is a shortest-path matrix in the sense above. |
| ShortestPaths.InitialMatrix | TPO.py:159-164 | The starting n×n matrix holds, entry by entry, the edge weight of the last listed edge between the two nodes in either direction, else 0 on the diagonal, else Inf. |
| ShortestPaths.RelaxRound | TPO.py:166-171 | One pass of the i and j loops with pivot k turns round k of the recurrence into round k+1. |
| ShortestPaths.RelaxRow | TPO.py:167-171 | One pass of the j loop for row i brings row i to round k+1. Earlier rows are already there and later rows stay at round k. |
| ShortestPaths.RelaxSymmetric | TPO.py:166-171 | Relaxation preserves the symmetry of a symmetric start matrix. |
| ShortestPaths.RelaxBelowInitial | TPO.py:166-171 | No relaxation round raises an entry above its initial value. |
| ShortestPaths.RelaxZeroDiagonal | TPO.py:166-171 | A zero diagonal stays zero in every round. |
| Demand.Tally | TPO.py:193-194 | Counting one package bumps the entry of its destination in place, leaving every other entry as it was, or appends the destination with count 1 when it has no entry yet. |
| Demand.TallyDests | TPO.py:193-194 | Counting one package keeps the destinations distinct. The destination list stays the same when the destination is known and gains it at the end otherwise. |
| Demand.TallyTotal | TPO.py:193-194 | Counting one package raises the total number of counted packages by exactly one. |
| Demand.Aggregate | TPO.py:191-194 | The keys are distinct and are exactly the package destinations. Each count is the number of packages for that destination and is at least 1. Entries follow the first occurrence of their destination, and the counts sum to the number of packages. |
| Demand.FirstIndexExtend | TPO.py:191-194 | Appending a package keeps the first-occurrence positions of known destinations. A new destination gets the next position. |
| Trips.ScanFlatten | TPO.py:218-227 | The scan loses and duplicates nothing: the trips concatenate to the demand. Only the first trip can be empty. |
| Trips.ScanFits | TPO.py:218-227 | Inside every trip after the first, each destination past the first one was added without the load exceeding the capacity, so no trip is cut internally. The first trip obeys the same rule from the position where the scan resumed it. |
| Trips.ScanCuts | TPO.py:220-225 | Each trip ends exactly where the next destination would have overflowed it. |
| Trips.PartitionIsGreedy | TPO.py:212-227 | The partition satisfies the greedy rule. The trips concatenate to the demand, and only the first trip can be empty, and only when another trip follows. No cut happens inside a trip, and every boundary is a cut, meaning the next destination would have overflowed the previous trip. |
| Trips.GreedySplitUnique | TPO.py:212-227 | Any trip sequence that satisfies the greedy rule is the partition, so the rule fully characterises the scan. |
| Trips.TripWithinCapacity | TPO.py:220-225 | A trip of two or more destinations never exceeds the capacity. A single destination can, because demand is never split. |
| Trips.PartitionWithinCapacity | TPO.py:217-227 | Every trip of the partition with two or more destinations carries at most the capacity. |
| Trips.EmptyTripIff | TPO.py:218-227 | The partition contains an empty trip exactly when the first destination's demand alone exceeds the capacity. |
| Routing.LegIsWalk | TPO.py:242-245 | The trip cost is the weight of the walk start, trip destinations in order, depot. |
| Routing.Choose | TPO.py:237-249 | The chosen cost is at most every candidate's trip cost. A finite result is reached at the chosen start, and every earlier candidate costs strictly more, so ties keep the earlier candidate. With no finite candidate the start stays the depot. |
| Routing.RouteShape | TPO.py:230-255 | The route is the depot followed by one leg per trip, in order. Each leg is the chosen start, the trip's destinations, then the depot. The route length is 1 + Σ(\|trip\| + 2). |
| Routing.RouteCovers | TPO.py:231-255 | The route starts at the depot and contains every destination of every trip. |
| Routing.MoreHubsNeverLonger | TPO.py:241-251 | A superset of departure points never yields a longer total distance. |
| HubSearch.SearchIsFold | TPO.py:207-278 | The backtracking search with its shared best record equals replaying its leaves, in visiting order, against that record. |
| HubSearch.LeavesByMask | TPO.py:207-278 | The x-th leaf activates exactly the hubs selected by the x-th include/exclude mask, in list order, and carries the sum of their costs. |
| HubSearch.MasksEnumerate | TPO.py:271-278 | The leaves correspond to 2^k masks of length k. Every subset occurs, the masks strictly increase in exclude-first order, and the first mask activates nothing. |
| HubSearch.VisitOrderThree | TPO.py:271-278 | With three hubs, {second, third} is visited just before {first}. |
| HubSearch.FoldKeepsFirstMinimum | TPO.py:257-264 | After the replay, the record is no worse than the start record or any leaf. It is either the start record or the record of the first leaf that attains the minimum. |
| HubSearch.FoldConsistent | TPO.py:257-264 | Each record installed has cost = distance + activation cost of its hubs. |
| HubSearch.ExploreIsFold | TPO.py:207-281 | The search from the empty record replays exactly the subsets of the hub list, in mask order. |
| HubSearch.ExploreOptimal | TPO.py:196-281 | No hub subset costs less than the final record. The record is the empty one exactly when its cost is infinite. Otherwise it is the record of the first minimal subset in visiting order, and its cost splits into distance plus activation. |
| HubSearch.ExploreNoTrips | TPO.py:207-266 | With nothing to deliver, the record is route [depot], no hubs, cost 0. |
| HubSearch.ExploreNoHubs | TPO.py:207-266 | With no hubs, the record activates none, and its cost is the depot-only distance. |
| Planner.HubCost | TPO.py:283 | The hub-only cost is infinite exactly when the best cost is. Otherwise it equals the activation costs of the chosen hubs. |
| Planner.PlanFaultIff | TPO.py:191-242 | The planner raises exactly when the destination of the first package has more packages than the truck carries. |
| Planner.AggregateHead | TPO.py:191-194 | The first demand entry is the first package's destination with its full count. |
| Planner.TripsReady | TPO.py:212-245 | Without an empty trip, every trip is non-empty and lies within the graph, so evaluation is defined. |
| Planner.PlanOptimal | TPO.py:181-284 | A solved plan costs no more than any hub subset. A finite one is exactly what some subset yields: its hubs in list order, its evaluated route and distance, cost = distance + activation, and hub cost = activation. |
| Planner.DestsInTrips | TPO.py:191-227 | Every package's destination lies in some trip. |
| Planner.PlanDeliversAll | TPO.py:181-284 | A finite-cost route starts at the depot and passes every package's destination. |
| Planner.PlanNoPackages | TPO.py:181-284 | With no packages the result is route [depot], no hubs, and every metric 0. |
| Planner.PlanNoHubs | TPO.py:181-284 | With no hubs, none is activated, and the cost is the depot-only distance. |
| Planner.Solve | TPO.py:304-307 | The matrix passed to the planner is a shortest-path matrix. The outcome faults exactly when the first package's destination exceeds the capacity. |

## Left out

- Input parsing, validation and file output (TPO.py:9-142 and 291-325). The
  model takes the parsed values as parameters:
  - the edge list is the `aristas` mapping's items in iteration order;
  - the hubs are the `hubs` mapping's items in iteration order;
  - the package destinations are listed in the iteration order of the
    `paquetes` mapping.

  The reverse-key rule of the parser (TPO.py:137-140) is not modelled.
- Node identifiers out of range, and Python's negative indexing. Every
  depot, hub, destination and edge endpoint is required to be a node
  `< num_nodos`. The source indexes with an identifier only when it writes
  an edge (TPO.py:161-164) or evaluates a trip (TPO.py:242-245); only there
  does an out-of-range identifier raise or a negative one wrap around. With
  zero packages no trip is evaluated, so an out-of-range depot or hub still
  yields route `[depot]` in the source.
- Floating point. Distances and costs are exact non-negative reals or
  `Inf`. Rounding, NaN, and negative edge weights or hub costs are not
  modelled.
- The time measurement and printing of `main`.
- The mutable `nonlocal` state, and the append/pop of the active-hub list.
  These become a best record threaded through a pure recursion.
- ShortestPaths.FloydWarshall: optimality (no shorter walk, triangle
  inequality, zero diagonal) is stated only for graphs without self-loops.
  A self-loop edge overwrites the diagonal entry with its weight. That
  entry then ends as the lightest closed walk of at least one edge instead
  of 0, so the one-node walk beats it.
