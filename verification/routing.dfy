/**
  Route evaluation for one hub subset (TPO.py:229-255).

  Every trip is driven in the order the partition gave it and always
  returns to the depot. For each trip the departure point is chosen among
  `[depot] + active` in that order, keeping a candidate only when its cost
  is strictly smaller than the best so far, so ties keep the earlier
  candidate and an all-`Inf` trip keeps the depot. The route is the depot
  followed, trip by trip, by the chosen start, the trip's destinations and
  the depot.
 */
module Routing {
  import opened ExtReal
  import opened ShortestPaths

  /** The distance matrix with its size and the depot. */
  datatype Net = Net(n: nat, dist: Matrix, depot: nat)

  predicate ValidNet(net: Net)
  {
    IsSquare(net.dist, net.n) && net.depot < net.n
  }

  /** Trips as they reach the evaluator: non-empty, over known nodes. */
  predicate TripsIn(net: Net, trips: seq<seq<nat>>)
  {
    forall a :: 0 <= a < |trips| ==> |trips[a]| > 0 && NodesIn(trips[a], net.n)
  }

  /** Cost of driving trip `t` from `start` and back to the depot:
      `dist[start][t0] + sum of dist[t_k][t_k+1] + dist[t_last][depot]`. */
  function LegCost(net: Net, start: nat, t: seq<nat>): Dist
    requires ValidNet(net) && start < net.n && |t| > 0 && NodesIn(t, net.n)
  {
    Add(Add(net.dist[start][t[0]], Weight(net.dist, net.n, t)), net.dist[t[|t| - 1]][net.depot])
  }

  /** The trip cost is the weight of the walk start, trip..., depot. */
  lemma LegIsWalk(net: Net, start: nat, t: seq<nat>)
    requires ValidNet(net) && start < net.n && |t| > 0 && NodesIn(t, net.n)
    ensures NodesIn([start] + t + [net.depot], net.n)
    ensures LegCost(net, start, t) == Weight(net.dist, net.n, [start] + t + [net.depot])
  {
    var m, n, depot := net.dist, net.n, net.depot;
    WeightSnoc(m, n, t, depot);
    WeightCons(m, n, start, t + [depot]);
    assert [start] + (t + [depot]) == [start] + t + [depot];
    AddAssoc(m[start][t[0]], Weight(m, n, t), m[t[|t| - 1]][depot]);
  }

  datatype Choice = Choice(start: nat, cost: Dist)

  /** `mejor_inicio` and `menor_distancia_viaje` for one trip, after trying
      the candidates in order. The result is the minimum cost over the
      candidates, reached first at the chosen start; with no finite
      candidate the start stays the depot and the cost `Inf`. */
  function Choose(net: Net, t: seq<nat>, cands: seq<nat>): (c: Choice)
    requires ValidNet(net) && |t| > 0 && NodesIn(t, net.n) && NodesIn(cands, net.n)
    ensures forall x :: 0 <= x < |cands| ==> Le(c.cost, LegCost(net, cands[x], t))
    ensures c.cost == Inf ==> c.start == net.depot
    ensures c.cost != Inf ==>
              exists x :: 0 <= x < |cands| && c.start == cands[x] && c.cost == LegCost(net, cands[x], t)
                       && forall y :: 0 <= y < x ==> Lt(c.cost, LegCost(net, cands[y], t))
    decreases |cands|
  {
    if |cands| == 0 then Choice(net.depot, Inf)
    else
      var front := cands[..|cands| - 1];
      var s := cands[|cands| - 1];
      var prev := Choose(net, t, front);
      var d := LegCost(net, s, t);
      if Lt(d, prev.cost) then
        assert forall y :: 0 <= y < |front| ==> Lt(d, LegCost(net, cands[y], t)) by {
          forall y | 0 <= y < |front|
            ensures Lt(d, LegCost(net, cands[y], t))
          {
            assert front[y] == cands[y];
            LtLeTrans(d, prev.cost, LegCost(net, cands[y], t));
          }
        }
        Choice(s, d)
      else
        assert forall y :: 0 <= y < |front| ==> front[y] == cands[y];
        prev
  }

  function Choices(net: Net, trips: seq<seq<nat>>, cands: seq<nat>): (cs: seq<Choice>)
    requires ValidNet(net) && TripsIn(net, trips) && NodesIn(cands, net.n)
    ensures |cs| == |trips|
    ensures forall a :: 0 <= a < |trips| ==> cs[a] == Choose(net, trips[a], cands)
  {
    seq(|trips|, a requires 0 <= a < |trips| => Choose(net, trips[a], cands))
  }

  function SumCosts(cs: seq<Choice>): Dist
  {
    if |cs| == 0 then Zero else Add(cs[0].cost, SumCosts(cs[1..]))
  }

  /** The waypoints after the initial depot: per trip, its start, its
      destinations and the depot. */
  function Legs(depot: nat, trips: seq<seq<nat>>, cs: seq<Choice>): seq<nat>
    requires |cs| == |trips|
  {
    if |trips| == 0 then []
    else [cs[0].start] + trips[0] + [depot] + Legs(depot, trips[1..], cs[1..])
  }

  datatype Evaluation = Evaluation(distance: Dist, route: seq<nat>)

  /** `distancia_total` and `ruta_total` for the active hubs `active`. */
  function Evaluate(net: Net, trips: seq<seq<nat>>, active: seq<nat>): Evaluation
    requires ValidNet(net) && TripsIn(net, trips) && NodesIn(active, net.n)
  {
    var cs := Choices(net, trips, [net.depot] + active);
    Evaluation(SumCosts(cs), [net.depot] + Legs(net.depot, trips, cs))
  }

  // ---------------------------------------------------------------------
  // Route shape
  // ---------------------------------------------------------------------

  /** Where the waypoints of trip `a` begin among the legs. */
  function Offset(trips: seq<seq<nat>>, a: nat): nat
    requires a <= |trips|
  {
    if a == 0 then 0 else |trips[0]| + 2 + Offset(trips[1..], a - 1)
  }

  /** The waypoints `start, t..., depot` sit in `l` from position `o`. */
  predicate LegAt(l: seq<nat>, o: nat, start: nat, t: seq<nat>, depot: nat)
  {
    o + |t| + 2 <= |l| && l[o..o + |t| + 2] == [start] + t + [depot]
  }

  lemma ShiftLegAt(head: seq<nat>, l: seq<nat>, o: nat, start: nat, t: seq<nat>, depot: nat)
    requires LegAt(l, o, start, t, depot)
    ensures LegAt(head + l, |head| + o, start, t, depot)
  {
    assert (head + l)[|head| + o..|head| + o + |t| + 2] == l[o..o + |t| + 2];
  }

  /** Trip `a` occupies the legs at `Offset(a)`: its start, its
      destinations in order, then the depot; the legs hold nothing else. */
  lemma {:induction false} LegsLayout(depot: nat, trips: seq<seq<nat>>, cs: seq<Choice>)
    requires |cs| == |trips|
    ensures |Legs(depot, trips, cs)| == Offset(trips, |trips|)
    ensures forall a :: 0 <= a < |trips| ==>
              LegAt(Legs(depot, trips, cs), Offset(trips, a), cs[a].start, trips[a], depot)
    decreases |trips|
  {
    if |trips| > 0 {
      var l, rest := Legs(depot, trips, cs), Legs(depot, trips[1..], cs[1..]);
      var head := [cs[0].start] + trips[0] + [depot];
      LegsLayout(depot, trips[1..], cs[1..]);
      assert l == head + rest;
      forall a | 0 <= a < |trips|
        ensures LegAt(l, Offset(trips, a), cs[a].start, trips[a], depot)
      {
        if a == 0 {
          assert l[..|head|] == head;
        } else {
          assert trips[1..][a - 1] == trips[a] && cs[1..][a - 1] == cs[a];
          ShiftLegAt(head, rest, Offset(trips[1..], a - 1), cs[a].start, trips[a], depot);
        }
      }
    }
  }

  /** The route is the depot followed by every trip's leg (start, the trip's
      destinations in order, depot); its length is `1 + sum(|trip| + 2)`. */
  lemma RouteShape(net: Net, trips: seq<seq<nat>>, active: seq<nat>)
    requires ValidNet(net) && TripsIn(net, trips) && NodesIn(active, net.n)
    ensures var r := Evaluate(net, trips, active).route;
      && |r| == 1 + Offset(trips, |trips|)
      && r[0] == net.depot
      && forall a :: 0 <= a < |trips| ==>
           LegAt(r, 1 + Offset(trips, a), Choose(net, trips[a], [net.depot] + active).start, trips[a], net.depot)
  {
    RouteLayout(net.depot, trips, Choices(net, trips, [net.depot] + active));
  }

  lemma RouteLayout(depot: nat, trips: seq<seq<nat>>, cs: seq<Choice>)
    requires |cs| == |trips|
    ensures var r := [depot] + Legs(depot, trips, cs);
      && |r| == 1 + Offset(trips, |trips|)
      && r[0] == depot
      && forall a :: 0 <= a < |trips| ==> LegAt(r, 1 + Offset(trips, a), cs[a].start, trips[a], depot)
  {
    var l := Legs(depot, trips, cs);
    LegsLayout(depot, trips, cs);
    forall a | 0 <= a < |trips|
      ensures LegAt([depot] + l, 1 + Offset(trips, a), cs[a].start, trips[a], depot)
    {
      ShiftLegAt([depot], l, Offset(trips, a), cs[a].start, trips[a], depot);
    }
  }

  /** The route starts at the depot and passes every destination of
      every trip. */
  lemma RouteCovers(net: Net, trips: seq<seq<nat>>, active: seq<nat>)
    requires ValidNet(net) && TripsIn(net, trips) && NodesIn(active, net.n)
    ensures var r := Evaluate(net, trips, active).route;
      && |r| > 0 && r[0] == net.depot
      && forall a, x :: 0 <= a < |trips| && 0 <= x < |trips[a]| ==> trips[a][x] in r
  {
    var r := Evaluate(net, trips, active).route;
    var cs := Choices(net, trips, [net.depot] + active);
    RouteLayout(net.depot, trips, cs);
    forall a, x | 0 <= a < |trips| && 0 <= x < |trips[a]|
      ensures trips[a][x] in r
    {
      LegAtHolds(r, 1 + Offset(trips, a), cs[a].start, trips[a], net.depot, x);
    }
  }

  lemma LegAtHolds(l: seq<nat>, o: nat, start: nat, t: seq<nat>, depot: nat, x: nat)
    requires LegAt(l, o, start, t, depot) && x < |t|
    ensures t[x] in l
  {
    assert l[o + 1 + x] == ([start] + t + [depot])[1 + x];
  }

  // ---------------------------------------------------------------------
  // More candidates never cost more
  // ---------------------------------------------------------------------

  lemma ChooseMono(net: Net, t: seq<nat>, c1: seq<nat>, c2: seq<nat>)
    requires ValidNet(net) && |t| > 0 && NodesIn(t, net.n) && NodesIn(c1, net.n) && NodesIn(c2, net.n)
    requires forall x :: 0 <= x < |c1| ==> c1[x] in c2
    ensures Le(Choose(net, t, c2).cost, Choose(net, t, c1).cost)
  {
    var ch := Choose(net, t, c1);
    if ch.cost != Inf {
      var x :| 0 <= x < |c1| && ch.start == c1[x] && ch.cost == LegCost(net, c1[x], t);
      var y :| 0 <= y < |c2| && c2[y] == c1[x];
    }
  }

  lemma {:induction false} SumMono(c1: seq<Choice>, c2: seq<Choice>)
    requires |c1| == |c2| && forall a :: 0 <= a < |c1| ==> Le(c2[a].cost, c1[a].cost)
    ensures Le(SumCosts(c2), SumCosts(c1))
  {
    if |c1| > 0 {
      SumMono(c1[1..], c2[1..]);
      AddMono(c2[0].cost, SumCosts(c2[1..]), c1[0].cost, SumCosts(c1[1..]));
    }
  }

  /** Offering more departure points never makes the route longer; in
      particular no hub subset does worse than the depot alone. */
  lemma MoreHubsNeverLonger(net: Net, trips: seq<seq<nat>>, a1: seq<nat>, a2: seq<nat>)
    requires ValidNet(net) && TripsIn(net, trips) && NodesIn(a1, net.n) && NodesIn(a2, net.n)
    requires forall x :: 0 <= x < |a1| ==> a1[x] in a2
    ensures Le(Evaluate(net, trips, a2).distance, Evaluate(net, trips, a1).distance)
  {
    var k1, k2 := [net.depot] + a1, [net.depot] + a2;
    forall a | 0 <= a < |trips|
      ensures Le(Choose(net, trips[a], k2).cost, Choose(net, trips[a], k1).cost)
    {
      forall x | 0 <= x < |k1|
        ensures k1[x] in k2
      {
        if x > 0 {
          assert k1[x] == a1[x - 1];
        }
      }
      ChooseMono(net, trips[a], k1, k2);
    }
    SumMono(Choices(net, trips, k1), Choices(net, trips, k2));
  }
}
