/**
  Exhaustive hub-subset search (`probar_combinaciones`, TPO.py:207-281).

  The search decides the hubs in list order, exploring at every index the
  branch that leaves the hub out before the branch that activates it, and
  carries the activation cost of the hubs activated so far. At a leaf the
  route for the active hubs is evaluated and the best record is replaced
  only when `distance + activation` is strictly smaller, so among equal
  totals the first leaf reached is kept.

  The shared mutable best record of the source becomes a value threaded
  through the recursion: the exclude branch's result is the include
  branch's starting record. The append/pop of the active list becomes
  passing `active + [hub]` to the include branch only.
 */
module HubSearch {
  import opened ExtReal
  import opened ShortestPaths
  import opened Routing

  /** A hub and its activation cost. */
  datatype Hub = Hub(id: nat, cost: NonNeg)

  function Ids(hs: seq<Hub>): (ids: seq<nat>)
    ensures |ids| == |hs| && forall x :: 0 <= x < |hs| ==> ids[x] == hs[x].id
  {
    seq(|hs|, x requires 0 <= x < |hs| => hs[x].id)
  }

  function CostSum(hs: seq<Hub>): NonNeg
  {
    if |hs| == 0 then 0.0 else hs[0].cost + CostSum(hs[1..])
  }

  predicate HubsIn(hs: seq<Hub>, n: nat)
  {
    forall h :: h in hs ==> h.id < n
  }

  /** Everything a leaf evaluation needs of its inputs. */
  predicate Ready(net: Net, trips: seq<seq<nat>>)
  {
    ValidNet(net) && TripsIn(net, trips)
  }

  /** `mejor_costo`, `mejor_hubs`, `mejor_ruta`, `mejor_distancia`. */
  datatype Best = Best(cost: Dist, hubs: seq<Hub>, route: seq<nat>, distance: NonNeg)

  /** The record before any leaf (TPO.py:197-200). */
  const NoBest: Best := Best(Inf, [], [], 0.0)

  /** A fully decided subset with its accumulated activation cost. */
  datatype Leaf = Leaf(active: seq<Hub>, activation: NonNeg)

  /** `costo_total` of a leaf. */
  function LeafCost(net: Net, trips: seq<seq<nat>>, leaf: Leaf): Dist
    requires Ready(net, trips) && HubsIn(leaf.active, net.n)
  {
    Add(Evaluate(net, trips, Ids(leaf.active)).distance, Fin(leaf.activation))
  }

  /** The record a leaf with a finite total installs. */
  function Record(net: Net, trips: seq<seq<nat>>, leaf: Leaf): Best
    requires Ready(net, trips) && HubsIn(leaf.active, net.n)
    requires LeafCost(net, trips, leaf).Fin?
  {
    var ev := Evaluate(net, trips, Ids(leaf.active));
    Best(LeafCost(net, trips, leaf), leaf.active, ev.route, ev.distance.r)
  }

  /** The update of TPO.py:260-264. */
  function Consider(net: Net, trips: seq<seq<nat>>, best: Best, leaf: Leaf): Best
    requires Ready(net, trips) && HubsIn(leaf.active, net.n)
  {
    if Lt(LeafCost(net, trips, leaf), best.cost) then Record(net, trips, leaf) else best
  }

  /** `probar_combinaciones(i, active, act)` started with record `best`. */
  function Search(net: Net, trips: seq<seq<nat>>, hubs: seq<Hub>, i: nat, active: seq<Hub>, act: NonNeg, best: Best): Best
    requires Ready(net, trips) && HubsIn(hubs, net.n) && HubsIn(active, net.n) && i <= |hubs|
    decreases |hubs| - i
  {
    if i == |hubs| then Consider(net, trips, best, Leaf(active, act))
    else
      var excluded := Search(net, trips, hubs, i + 1, active, act, best);
      Search(net, trips, hubs, i + 1, active + [hubs[i]], act + hubs[i].cost, excluded)
  }

  // ---------------------------------------------------------------------
  // The leaves, in visiting order
  // ---------------------------------------------------------------------

  function Leaves(hubs: seq<Hub>, i: nat, active: seq<Hub>, act: NonNeg): seq<Leaf>
    requires i <= |hubs|
    decreases |hubs| - i
  {
    if i == |hubs| then [Leaf(active, act)]
    else Leaves(hubs, i + 1, active, act) + Leaves(hubs, i + 1, active + [hubs[i]], act + hubs[i].cost)
  }

  predicate LeavesIn(leaves: seq<Leaf>, n: nat)
  {
    forall x :: 0 <= x < |leaves| ==> HubsIn(leaves[x].active, n)
  }

  /** Replaying the leaves one after another against a running record. */
  function Fold(net: Net, trips: seq<seq<nat>>, best: Best, leaves: seq<Leaf>): Best
    requires Ready(net, trips) && LeavesIn(leaves, net.n)
    decreases |leaves|
  {
    if |leaves| == 0 then best
    else Fold(net, trips, Consider(net, trips, best, leaves[0]), leaves[1..])
  }

  lemma {:induction false} FoldAppend(net: Net, trips: seq<seq<nat>>, best: Best, l1: seq<Leaf>, l2: seq<Leaf>)
    requires Ready(net, trips) && LeavesIn(l1, net.n) && LeavesIn(l2, net.n)
    ensures LeavesIn(l1 + l2, net.n)
    ensures Fold(net, trips, best, l1 + l2) == Fold(net, trips, Fold(net, trips, best, l1), l2)
    decreases |l1|
  {
    if |l1| == 0 {
      assert l1 + l2 == l2;
    } else {
      assert (l1 + l2)[1..] == l1[1..] + l2;
      FoldAppend(net, trips, Consider(net, trips, best, l1[0]), l1[1..], l2);
    }
  }

  lemma {:induction false} LeavesInRange(hubs: seq<Hub>, i: nat, active: seq<Hub>, act: NonNeg, n: nat)
    requires HubsIn(hubs, n) && HubsIn(active, n) && i <= |hubs|
    ensures LeavesIn(Leaves(hubs, i, active, act), n)
    decreases |hubs| - i
  {
    if i < |hubs| {
      LeavesInRange(hubs, i + 1, active, act, n);
      LeavesInRange(hubs, i + 1, active + [hubs[i]], act + hubs[i].cost, n);
    }
  }

  /** The depth-first search is the replay of its leaves in visiting order. */
  lemma {:induction false} SearchIsFold(net: Net, trips: seq<seq<nat>>, hubs: seq<Hub>, i: nat, active: seq<Hub>, act: NonNeg, best: Best)
    requires Ready(net, trips) && HubsIn(hubs, net.n) && HubsIn(active, net.n) && i <= |hubs|
    ensures LeavesIn(Leaves(hubs, i, active, act), net.n)
    ensures Search(net, trips, hubs, i, active, act, best) == Fold(net, trips, best, Leaves(hubs, i, active, act))
    decreases |hubs| - i
  {
    LeavesInRange(hubs, i, active, act, net.n);
    if i == |hubs| {
      assert Leaves(hubs, i, active, act)[1..] == [];
    } else {
      var h := hubs[i];
      var with, withAct := active + [h], act + h.cost;
      assert HubsIn(with, net.n) by { assert h in hubs; }
      var excluded := Search(net, trips, hubs, i + 1, active, act, best);
      var l1, l2 := Leaves(hubs, i + 1, active, act), Leaves(hubs, i + 1, with, withAct);
      assert Search(net, trips, hubs, i, active, act, best) == Search(net, trips, hubs, i + 1, with, withAct, excluded);
      assert Leaves(hubs, i, active, act) == l1 + l2;
      SearchIsFold(net, trips, hubs, i + 1, active, act, best);
      SearchIsFold(net, trips, hubs, i + 1, with, withAct, excluded);
      FoldAppend(net, trips, best, l1, l2);
    }
  }

  // ---------------------------------------------------------------------
  // Subsets as include/exclude masks
  // ---------------------------------------------------------------------

  function Pow2(k: nat): nat
  {
    if k == 0 then 1 else 2 * Pow2(k - 1)
  }

  function Prefixed(b: bool, ms: seq<seq<bool>>): (r: seq<seq<bool>>)
    ensures |r| == |ms| && forall x :: 0 <= x < |ms| ==> r[x] == [b] + ms[x]
  {
    seq(|ms|, x requires 0 <= x < |ms| => [b] + ms[x])
  }

  /** The include/exclude decisions of the leaves in visiting order: the
      first decision is the first hub's, and "exclude" (false) comes first. */
  function Masks(k: nat): seq<seq<bool>>
  {
    if k == 0 then [[]] else Prefixed(false, Masks(k - 1)) + Prefixed(true, Masks(k - 1))
  }

  /** The hubs a mask activates, in list order. */
  function Select(hs: seq<Hub>, m: seq<bool>): (r: seq<Hub>)
    ensures forall h :: h in r ==> h in hs
  {
    if |hs| == 0 || |m| == 0 then []
    else (if m[0] then [hs[0]] else []) + Select(hs[1..], m[1..])
  }

  /** Lexicographic order with "exclude" before "include". */
  predicate LexLess(a: seq<bool>, b: seq<bool>)
  {
    |a| > 0 && |b| > 0 && ((!a[0] && b[0]) || (a[0] == b[0] && LexLess(a[1..], b[1..])))
  }

  lemma {:induction false} MasksCount(k: nat)
    ensures |Masks(k)| == Pow2(k)
    ensures forall x :: 0 <= x < |Masks(k)| ==> |Masks(k)[x]| == k
  {
    if k > 0 {
      MasksCount(k - 1);
    }
  }

  /** There are `2^k` masks, each of length `k`, every mask of length `k`
      occurs, they strictly increase (so none occurs twice), and the first
      activates nothing. */
  lemma {:induction false} MasksEnumerate(k: nat)
    ensures |Masks(k)| == Pow2(k)
    ensures forall x :: 0 <= x < |Masks(k)| ==> |Masks(k)[x]| == k
    ensures forall m: seq<bool> :: |m| == k ==> m in Masks(k)
    ensures forall x, y :: 0 <= x < y < |Masks(k)| ==> LexLess(Masks(k)[x], Masks(k)[y])
    ensures |Masks(k)| > 0 && Masks(k)[0] == seq(k, b => false)
  {
    MasksCount(k);
    MasksComplete(k);
    MasksOrdered(k);
    MasksFirst(k);
  }

  lemma MasksComplete(k: nat)
    ensures forall m: seq<bool> :: |m| == k ==> m in Masks(k)
  {
    forall m: seq<bool> | |m| == k
      ensures m in Masks(k)
    {
      var x := MaskIndex(m);
    }
  }

  /** Where a mask sits in the enumeration. */
  lemma {:induction false} MaskIndex(m: seq<bool>) returns (x: nat)
    ensures x < |Masks(|m|)| && Masks(|m|)[x] == m
    decreases |m|
  {
    if |m| == 0 {
      x := 0;
    } else {
      var prev := Masks(|m| - 1);
      var y := MaskIndex(m[1..]);
      var lo := Prefixed(false, prev);
      assert Masks(|m|) == lo + Prefixed(true, prev);
      assert m == [m[0]] + m[1..];
      x := if m[0] then |lo| + y else y;
    }
  }

  lemma {:induction false} MasksOrdered(k: nat)
    ensures forall x, y :: 0 <= x < y < |Masks(k)| ==> LexLess(Masks(k)[x], Masks(k)[y])
  {
    if k > 0 {
      MasksCount(k - 1);
      MasksOrdered(k - 1);
      var prev := Masks(k - 1);
      var lo, hi := Prefixed(false, prev), Prefixed(true, prev);
      var ms := Masks(k);
      assert ms == lo + hi;
      forall x, y | 0 <= x < y < |ms|
        ensures LexLess(ms[x], ms[y])
      {
        if y < |lo| {
          assert ms[x] == [false] + prev[x] && ms[y] == [false] + prev[y];
          assert ms[x][1..] == prev[x] && ms[y][1..] == prev[y];
        } else if |lo| <= x {
          assert ms[x] == [true] + prev[x - |lo|] && ms[y] == [true] + prev[y - |lo|];
          assert ms[x][1..] == prev[x - |lo|] && ms[y][1..] == prev[y - |lo|];
        } else {
          assert ms[x] == [false] + prev[x] && ms[y] == [true] + prev[y - |lo|];
        }
      }
    }
  }

  lemma {:induction false} MasksFirst(k: nat)
    ensures |Masks(k)| > 0 && Masks(k)[0] == seq(k, b => false)
  {
    if k > 0 {
      MasksFirst(k - 1);
      assert Masks(k)[0] == [false] + Masks(k - 1)[0];
    }
  }

  /** With three hubs the subset of the second and third hub is visited
      just before the subset of the first hub alone, so on a tie between
      them the search keeps the two later hubs. */
  lemma VisitOrderThree()
    ensures |Masks(3)| == 8
    ensures Masks(3)[3] == [false, true, true] && Masks(3)[4] == [true, false, false]
  {
    var m0: seq<seq<bool>> := [[]];
    assert Masks(0) == m0;
    assert [false] + m0[0] == [false] && [true] + m0[0] == [true];
    assert Prefixed(false, m0) == [[false]] && Prefixed(true, m0) == [[true]];
    var m1 := [[false], [true]];
    assert Masks(1) == m1;
    assert [false] + m1[0] == [false, false] && [false] + m1[1] == [false, true];
    assert [true] + m1[0] == [true, false] && [true] + m1[1] == [true, true];
    assert Prefixed(false, m1) == [[false, false], [false, true]];
    assert Prefixed(true, m1) == [[true, false], [true, true]];
    var m2 := [[false, false], [false, true], [true, false], [true, true]];
    assert Masks(2) == m2;
    assert [false] + m2[3] == [false, true, true] && [true] + m2[0] == [true, false, false];
    assert Prefixed(false, m2)[3] == [false, true, true];
    assert Prefixed(true, m2)[0] == [true, false, false];
  }

  /** A mask that excludes every hub selects none. */
  lemma {:induction false} SelectNone(hs: seq<Hub>, m: seq<bool>)
    requires forall x :: 0 <= x < |m| ==> !m[x]
    ensures Select(hs, m) == []
    decreases |hs|
  {
    if |hs| > 0 && |m| > 0 {
      assert !m[0];
      SelectNone(hs[1..], m[1..]);
    }
  }

  /** The leaf a mask reaches from index `i`. */
  function LeafOf(hubs: seq<Hub>, i: nat, active: seq<Hub>, act: NonNeg, m: seq<bool>): Leaf
    requires i <= |hubs|
  {
    var s := Select(hubs[i..], m);
    Leaf(active + s, act + CostSum(s))
  }

  lemma LeafOfExclude(hubs: seq<Hub>, i: nat, active: seq<Hub>, act: NonNeg, m: seq<bool>)
    requires i < |hubs| && |m| == |hubs| - i - 1
    ensures LeafOf(hubs, i, active, act, [false] + m) == LeafOf(hubs, i + 1, active, act, m)
  {
    assert hubs[i..][1..] == hubs[i + 1..];
    assert ([false] + m)[1..] == m;
    var s := Select(hubs[i + 1..], m);
    assert Select(hubs[i..], [false] + m) == [] + s;
    assert [] + s == s;
  }

  lemma LeafOfInclude(hubs: seq<Hub>, i: nat, active: seq<Hub>, act: NonNeg, m: seq<bool>)
    requires i < |hubs| && |m| == |hubs| - i - 1
    ensures LeafOf(hubs, i, active, act, [true] + m) == LeafOf(hubs, i + 1, active + [hubs[i]], act + hubs[i].cost, m)
  {
    var h := hubs[i];
    assert hubs[i..][1..] == hubs[i + 1..];
    assert ([true] + m)[1..] == m;
    var s := Select(hubs[i + 1..], m);
    assert Select(hubs[i..], [true] + m) == [h] + s;
    assert active + [h] + s == active + ([h] + s);
    assert ([h] + s)[1..] == s;
  }

  /** The leaf visited `x`-th is the one mask `x` reaches: the hubs the mask
      selects are appended to the hubs already active, with their costs. */
  lemma {:induction false} LeavesByMask(hubs: seq<Hub>, i: nat, active: seq<Hub>, act: NonNeg)
    requires i <= |hubs|
    ensures |Leaves(hubs, i, active, act)| == |Masks(|hubs| - i)|
    ensures forall x :: 0 <= x < |Leaves(hubs, i, active, act)| ==>
              |Masks(|hubs| - i)[x]| == |hubs| - i &&
              Leaves(hubs, i, active, act)[x] == LeafOf(hubs, i, active, act, Masks(|hubs| - i)[x])
    decreases |hubs| - i
  {
    MasksCount(|hubs| - i);
    if i == |hubs| {
      assert hubs[i..] == [];
    } else {
      var h := hubs[i];
      LeavesByMask(hubs, i + 1, active, act);
      LeavesByMask(hubs, i + 1, active + [h], act + h.cost);
      MasksCount(|hubs| - i - 1);
      LeavesByMaskStep(hubs, i, active, act);
    }
  }

  /** The inductive step of `LeavesByMask`: the exclude half of the leaves
      matches the `false`-prefixed masks, the include half the `true` ones. */
  lemma LeavesByMaskStep(hubs: seq<Hub>, i: nat, active: seq<Hub>, act: NonNeg)
    requires i < |hubs|
    requires var k := |hubs| - i - 1;
      && (forall x :: 0 <= x < |Masks(k)| ==> |Masks(k)[x]| == k)
      && |Leaves(hubs, i + 1, active, act)| == |Masks(k)|
      && |Leaves(hubs, i + 1, active + [hubs[i]], act + hubs[i].cost)| == |Masks(k)|
      && (forall x :: 0 <= x < |Masks(k)| ==>
            Leaves(hubs, i + 1, active, act)[x] == LeafOf(hubs, i + 1, active, act, Masks(k)[x]))
      && (forall x :: 0 <= x < |Masks(k)| ==>
            Leaves(hubs, i + 1, active + [hubs[i]], act + hubs[i].cost)[x]
            == LeafOf(hubs, i + 1, active + [hubs[i]], act + hubs[i].cost, Masks(k)[x]))
    ensures |Leaves(hubs, i, active, act)| == |Masks(|hubs| - i)|
    ensures forall x :: 0 <= x < |Leaves(hubs, i, active, act)| ==>
              |Masks(|hubs| - i)[x]| == |hubs| - i &&
              Leaves(hubs, i, active, act)[x] == LeafOf(hubs, i, active, act, Masks(|hubs| - i)[x])
  {
    var h, k := hubs[i], |hubs| - i - 1;
    var lo, hi := Leaves(hubs, i + 1, active, act), Leaves(hubs, i + 1, active + [h], act + h.cost);
    var ls, prev := Leaves(hubs, i, active, act), Masks(k);
    var ms := Masks(k + 1);
    assert ls == lo + hi;
    assert ms == Prefixed(false, prev) + Prefixed(true, prev);
    forall x | 0 <= x < |ls|
      ensures |ms[x]| == k + 1 && ls[x] == LeafOf(hubs, i, active, act, ms[x])
    {
      if x < |lo| {
        assert ms[x] == [false] + prev[x];
        LeafOfExclude(hubs, i, active, act, prev[x]);
      } else {
        assert ms[x] == [true] + prev[x - |lo|];
        LeafOfInclude(hubs, i, active, act, prev[x - |lo|]);
      }
    }
  }

  // ---------------------------------------------------------------------
  // What the replay keeps
  // ---------------------------------------------------------------------

  /** Leaf `x` beats `b0`, installs record `r`, and every earlier leaf
      costs strictly more. */
  ghost predicate FirstMinimum(net: Net, trips: seq<seq<nat>>, b0: Best, leaves: seq<Leaf>, x: int, r: Best)
    requires Ready(net, trips) && LeavesIn(leaves, net.n)
  {
    && 0 <= x < |leaves| && Lt(LeafCost(net, trips, leaves[x]), b0.cost)
    && r == Record(net, trips, leaves[x])
    && forall y :: 0 <= y < x ==> Lt(r.cost, LeafCost(net, trips, leaves[y]))
  }

  /** Replaying leaves against record `b0` ends with a record no worse than
      `b0` or any leaf; it is `b0` itself, or the record of the first leaf
      whose total is that minimum (and beats `b0`). */
  lemma {:induction false} FoldKeepsFirstMinimum(net: Net, trips: seq<seq<nat>>, b0: Best, leaves: seq<Leaf>)
    requires Ready(net, trips) && LeavesIn(leaves, net.n)
    ensures var r := Fold(net, trips, b0, leaves);
      && Le(r.cost, b0.cost)
      && (forall x :: 0 <= x < |leaves| ==> Le(r.cost, LeafCost(net, trips, leaves[x])))
      && (r == b0 || exists x :: FirstMinimum(net, trips, b0, leaves, x, r))
    decreases |leaves|
  {
    if |leaves| > 0 {
      var b1 := Consider(net, trips, b0, leaves[0]);
      var rest := leaves[1..];
      var r := Fold(net, trips, b1, rest);
      FoldKeepsFirstMinimum(net, trips, b1, rest);
      assert Le(b1.cost, b0.cost) && Le(b1.cost, LeafCost(net, trips, leaves[0]));
      forall x | 0 <= x < |leaves|
        ensures Le(r.cost, LeafCost(net, trips, leaves[x]))
      {
        if x > 0 {
          assert leaves[x] == rest[x - 1];
        }
      }
      if r != b0 {
        if r == b1 {
          assert FirstMinimum(net, trips, b0, leaves, 0, r);
        } else {
          var x' :| FirstMinimum(net, trips, b1, rest, x', r);
          var x := x' + 1;
          assert leaves[x] == rest[x'];
          forall y | 0 <= y < x
            ensures Lt(r.cost, LeafCost(net, trips, leaves[y]))
          {
            if y > 0 {
              assert leaves[y] == rest[y - 1];
            } else {
              LtLeTrans(r.cost, b1.cost, LeafCost(net, trips, leaves[0]));
            }
          }
          LtLeTrans(r.cost, b1.cost, b0.cost);
          assert FirstMinimum(net, trips, b0, leaves, x, r);
        }
      }
    }
  }

  /** A record whose finite cost splits into its distance plus the
      activation cost of its hubs. */
  predicate Consistent(b: Best)
  {
    b.cost.Fin? ==> b.cost.r == b.distance + CostSum(b.hubs)
  }

  predicate LeavesCharged(leaves: seq<Leaf>)
  {
    forall x :: 0 <= x < |leaves| ==> leaves[x].activation == CostSum(leaves[x].active)
  }

  lemma {:induction false} FoldConsistent(net: Net, trips: seq<seq<nat>>, b0: Best, leaves: seq<Leaf>)
    requires Ready(net, trips) && LeavesIn(leaves, net.n) && LeavesCharged(leaves) && Consistent(b0)
    ensures Consistent(Fold(net, trips, b0, leaves))
    decreases |leaves|
  {
    if |leaves| > 0 {
      FoldConsistent(net, trips, Consider(net, trips, b0, leaves[0]), leaves[1..]);
    }
  }

  // ---------------------------------------------------------------------
  // The search from the top
  // ---------------------------------------------------------------------

  /** The leaf for the hub subset a mask selects, charged its activation. */
  function SubsetLeaf(hubs: seq<Hub>, m: seq<bool>): (leaf: Leaf)
    ensures forall h :: h in leaf.active ==> h in hubs
  {
    var s := Select(hubs, m);
    Leaf(s, CostSum(s))
  }

  /** `distancia_total + costo_activacion` for the subset a mask selects. */
  function SubsetCost(net: Net, trips: seq<seq<nat>>, hubs: seq<Hub>, m: seq<bool>): Dist
    requires Ready(net, trips) && HubsIn(hubs, net.n)
  {
    LeafCost(net, trips, SubsetLeaf(hubs, m))
  }

  /** The leaves of all subsets in mask order. */
  function SubsetLeaves(hubs: seq<Hub>): (ls: seq<Leaf>)
    ensures |ls| == |Masks(|hubs|)|
    ensures forall x :: 0 <= x < |ls| ==> ls[x] == SubsetLeaf(hubs, Masks(|hubs|)[x])
  {
    var ms := Masks(|hubs|);
    seq(|ms|, x requires 0 <= x < |ms| => SubsetLeaf(hubs, ms[x]))
  }

  /** `probar_combinaciones(0, [], 0)` from the empty record. */
  function Explore(net: Net, trips: seq<seq<nat>>, hubs: seq<Hub>): Best
    requires Ready(net, trips) && HubsIn(hubs, net.n)
  {
    Search(net, trips, hubs, 0, [], 0.0, NoBest)
  }

  lemma LeafOfRoot(hubs: seq<Hub>, m: seq<bool>)
    ensures LeafOf(hubs, 0, [], 0.0, m) == SubsetLeaf(hubs, m)
  {
    assert hubs[0..] == hubs;
    assert [] + Select(hubs, m) == Select(hubs, m);
  }

  /** The search replays exactly the subsets, in mask order. */
  lemma ExploreIsFold(net: Net, trips: seq<seq<nat>>, hubs: seq<Hub>)
    requires Ready(net, trips) && HubsIn(hubs, net.n)
    ensures LeavesIn(SubsetLeaves(hubs), net.n)
    ensures LeavesCharged(SubsetLeaves(hubs))
    ensures Explore(net, trips, hubs) == Fold(net, trips, NoBest, SubsetLeaves(hubs))
  {
    var ms := Masks(|hubs|);
    SearchIsFold(net, trips, hubs, 0, [], 0.0, NoBest);
    LeavesByMask(hubs, 0, [], 0.0);
    var ls, leaves := Leaves(hubs, 0, [], 0.0), SubsetLeaves(hubs);
    forall x | 0 <= x < |ms|
      ensures ls[x] == leaves[x]
    {
      LeafOfRoot(hubs, ms[x]);
    }
    assert ls == leaves;
  }

  /** Mask `x` is the first whose subset attains the record `r`, and `r` is
      that subset's record. */
  ghost predicate FirstMinimalMask(net: Net, trips: seq<seq<nat>>, hubs: seq<Hub>, x: int, r: Best)
    requires Ready(net, trips) && HubsIn(hubs, net.n)
  {
    var ms := Masks(|hubs|);
    && 0 <= x < |ms|
    && SubsetCost(net, trips, hubs, ms[x]).Fin?
    && r == Record(net, trips, SubsetLeaf(hubs, ms[x]))
    && forall y :: 0 <= y < x ==> Lt(r.cost, SubsetCost(net, trips, hubs, ms[y]))
  }

  /** No hub subset costs less than the search's record. */
  lemma ExploreBelowAll(net: Net, trips: seq<seq<nat>>, hubs: seq<Hub>)
    requires Ready(net, trips) && HubsIn(hubs, net.n)
    ensures forall m :: |m| == |hubs| ==> Le(Explore(net, trips, hubs).cost, SubsetCost(net, trips, hubs, m))
  {
    var ms, leaves := Masks(|hubs|), SubsetLeaves(hubs);
    ExploreIsFold(net, trips, hubs);
    MasksComplete(|hubs|);
    FoldKeepsFirstMinimum(net, trips, NoBest, leaves);
    forall m | |m| == |hubs|
      ensures Le(Explore(net, trips, hubs).cost, SubsetCost(net, trips, hubs, m))
    {
      var x :| 0 <= x < |ms| && ms[x] == m;
      assert leaves[x] == SubsetLeaf(hubs, m);
    }
  }

  /** The record is the empty one or the first minimal subset's. */
  lemma ExploreFirst(net: Net, trips: seq<seq<nat>>, hubs: seq<Hub>)
    requires Ready(net, trips) && HubsIn(hubs, net.n)
    ensures var r := Explore(net, trips, hubs);
      && (r.cost == Inf <==> r == NoBest)
      && (r.cost != Inf ==> exists x :: FirstMinimalMask(net, trips, hubs, x, r))
      && Consistent(r)
  {
    var r, leaves := Explore(net, trips, hubs), SubsetLeaves(hubs);
    ExploreIsFold(net, trips, hubs);
    FoldKeepsFirstMinimum(net, trips, NoBest, leaves);
    FoldConsistent(net, trips, NoBest, leaves);
    if r != NoBest {
      var x :| FirstMinimum(net, trips, NoBest, leaves, x, r);
      assert FirstMinimalMask(net, trips, hubs, x, r);
    }
  }

  /** The search's record is no worse than any hub subset; it is the empty
      record exactly when every subset costs `Inf`; otherwise it is the
      record of the first subset in visiting order (exclude before include,
      first hub decided first) whose total is that minimum; and its cost
      splits into its distance plus its hubs' activation costs. */
  lemma ExploreOptimal(net: Net, trips: seq<seq<nat>>, hubs: seq<Hub>)
    requires Ready(net, trips) && HubsIn(hubs, net.n)
    ensures var r := Explore(net, trips, hubs);
      && (forall m :: |m| == |hubs| ==> Le(r.cost, SubsetCost(net, trips, hubs, m)))
      && (r.cost == Inf <==> r == NoBest)
      && (r.cost != Inf ==> exists x :: FirstMinimalMask(net, trips, hubs, x, r))
      && Consistent(r)
  {
    ExploreBelowAll(net, trips, hubs);
    ExploreFirst(net, trips, hubs);
  }

  /** With nothing to deliver the search keeps the first subset, the empty
      one: route `[depot]`, distance and cost zero, no hubs. */
  lemma ExploreNoTrips(net: Net, hubs: seq<Hub>)
    requires ValidNet(net) && HubsIn(hubs, net.n)
    ensures Explore(net, [], hubs) == Best(Zero, [], [net.depot], 0.0)
  {
    var r, ms := Explore(net, [], hubs), Masks(|hubs|);
    ExploreFirst(net, [], hubs);
    ExploreBelowAll(net, [], hubs);
    MasksFirst(|hubs|);
    SelectNone(hubs, ms[0]);
    var empty := SubsetLeaf(hubs, ms[0]);
    assert empty == Leaf([], 0.0);
    EmptyLeafRecord(net, empty);
    assert Le(r.cost, Zero);
    var x :| FirstMinimalMask(net, [], hubs, x, r);
    assert x == 0;
  }

  /** The subset without hubs, with nothing to deliver, records route
      `[depot]` at cost zero. */
  lemma EmptyLeafRecord(net: Net, leaf: Leaf)
    requires ValidNet(net) && leaf == Leaf([], 0.0)
    ensures LeafCost(net, [], leaf) == Zero
    ensures Record(net, [], leaf) == Best(Zero, [], [net.depot], 0.0)
  {
    assert Ids([]) == [];
    assert Choices(net, [], [net.depot]) == [];
  }

  /** With no hubs to choose from the search activates none. */
  lemma ExploreNoHubs(net: Net, trips: seq<seq<nat>>)
    requires Ready(net, trips)
    ensures Explore(net, trips, []).hubs == []
    ensures Explore(net, trips, []).cost == Evaluate(net, trips, []).distance
  {
    ExploreFirst(net, trips, []);
    var m: seq<bool> := [];
    assert Masks(0) == [m];
    assert SubsetLeaf([], m) == Leaf([], 0.0);
    assert Ids([]) == [];
  }
}
