/**
  Greedy trip partitioning (TPO.py:212-227).

  The aggregated destinations are scanned in order with a running load.
  Before a destination is added, the current trip is closed whenever
  `load + demand > capacity`, even when the current trip is still empty;
  the destination then starts a new trip. A destination's demand is never
  split, so a destination whose demand alone exceeds the capacity travels
  alone. If the very first destination already exceeds the capacity, the
  first trip closed is the empty one.

  The scan reads only the demand and the capacity, never the active hubs,
  so every leaf of the hub search computes the same partition.
 */
module Trips {
  import opened Demand

  type Trip = seq<DestCount>

  /** Packages carried by a trip. */
  function Load(t: Trip): nat
  {
    if |t| == 0 then 0 else Load(t[..|t| - 1]) + t[|t| - 1].count
  }

  function Flatten(trips: seq<Trip>): seq<DestCount>
  {
    if |trips| == 0 then [] else trips[0] + Flatten(trips[1..])
  }

  /** The loop of TPO.py:218-227 from a state with current trip `cur`
      carrying `load`. */
  function Scan(agg: seq<DestCount>, capacity: int, cur: Trip, load: int): seq<Trip>
    decreases |agg|
  {
    if |agg| == 0 then
      if |cur| > 0 then [cur] else []
    else if load + agg[0].count > capacity then
      [cur] + Scan(agg[1..], capacity, [agg[0]], agg[0].count)
    else
      Scan(agg[1..], capacity, cur + [agg[0]], load + agg[0].count)
  }

  /** `viajes`: the trips, in order. */
  function Partition(agg: seq<DestCount>, capacity: int): seq<Trip>
  {
    Scan(agg, capacity, [], 0)
  }

  // ---------------------------------------------------------------------
  // The greedy cut rule, stated on the result
  // ---------------------------------------------------------------------

  /** No cut happens inside `t` at positions `from..`: each destination fits
      on top of the load before it. */
  predicate Fits(t: Trip, capacity: int, from: nat)
  {
    forall b :: from <= b < |t| ==> Load(t[..b]) + t[b].count <= capacity
  }

  /** A cut happens between consecutive trips: the next trip's first
      destination would have overflowed the previous trip. */
  predicate Cut(prev: Trip, next: Trip, capacity: int)
  {
    |next| > 0 && Load(prev) + next[0].count > capacity
  }

  /** Every trip after the first fits without an inner cut. */
  predicate LaterFit(trips: seq<Trip>, capacity: int)
  {
    forall a :: 1 <= a < |trips| ==> Fits(trips[a], capacity, 1)
  }

  /** Every boundary between consecutive trips is a cut. */
  predicate AllCut(trips: seq<Trip>, capacity: int)
  {
    forall a :: 0 <= a < |trips| - 1 ==> Cut(trips[a], trips[a + 1], capacity)
  }

  /** The greedy rule as a property of the trip sequence: the trips
      concatenate to the demand; only the first trip may be empty, and only
      when a later trip follows; the first destination of the first trip fit
      into an empty truck; no cut happens inside a trip; and every boundary
      is a cut. */
  ghost predicate GreedySplit(trips: seq<Trip>, agg: seq<DestCount>, capacity: int)
  {
    && Flatten(trips) == agg
    && (forall a :: 0 <= a < |trips| && |trips[a]| == 0 ==> a == 0 && |trips| > 1)
    && (|trips| > 0 ==> Fits(trips[0], capacity, 0))
    && LaterFit(trips, capacity)
    && AllCut(trips, capacity)
  }

  lemma {:induction false} FitsExtend(cur: Trip, e: DestCount, capacity: int, from: nat)
    requires Fits(cur, capacity, from) && Load(cur) + e.count <= capacity
    ensures Fits(cur + [e], capacity, from)
  {
    var t := cur + [e];
    forall b | from <= b < |t|
      ensures Load(t[..b]) + t[b].count <= capacity
    {
      if b < |cur| {
        assert t[..b] == cur[..b];
      } else {
        assert t[..b] == cur;
      }
    }
  }

  lemma {:induction false} LoadSingle(e: DestCount)
    ensures Load([e]) == e.count
  {
    assert [e][..0] == [];
  }

  lemma {:induction false} LoadAppend(cur: Trip, e: DestCount)
    ensures Load(cur + [e]) == Load(cur) + e.count
  {
    assert (cur + [e])[..|cur|] == cur;
  }

  /** The scan loses and duplicates nothing, and the first trip it closes
      begins with the current trip. */
  lemma {:induction false} ScanFlatten(agg: seq<DestCount>, capacity: int, cur: Trip, load: int)
    ensures var r := Scan(agg, capacity, cur, load);
      && Flatten(r) == cur + agg
      && (|cur| > 0 || |agg| > 0 ==> |r| > 0 && cur <= r[0])
      && (forall a :: 1 <= a < |r| ==> |r[a]| > 0)
    decreases |agg|
  {
    var r := Scan(agg, capacity, cur, load);
    if |agg| == 0 {
    } else if load + agg[0].count > capacity {
      var rest := Scan(agg[1..], capacity, [agg[0]], agg[0].count);
      ScanFlatten(agg[1..], capacity, [agg[0]], agg[0].count);
      assert [agg[0]] + agg[1..] == agg;
      assert r[1..] == rest;
      forall a | 1 <= a < |r|
        ensures |r[a]| > 0
      {
        assert r[a] == rest[a - 1];
      }
    } else {
      ScanFlatten(agg[1..], capacity, cur + [agg[0]], load + agg[0].count);
      assert cur + [agg[0]] + agg[1..] == cur + agg;
    }
  }

  /** The scan when the next destination overflows: the current trip is
      closed and the destination starts the next one. */
  lemma ScanCutStep(agg: seq<DestCount>, capacity: int, cur: Trip, load: int)
    requires |agg| > 0 && load + agg[0].count > capacity
    ensures Load([agg[0]]) == agg[0].count
    ensures Scan(agg, capacity, cur, load) == [cur] + Scan(agg[1..], capacity, [agg[0]], Load([agg[0]]))
  {
    LoadSingle(agg[0]);
  }

  /** The scan when the next destination fits: it joins the current trip. */
  lemma ScanFitStep(agg: seq<DestCount>, capacity: int, cur: Trip, load: int)
    requires |agg| > 0 && load == Load(cur) && load + agg[0].count <= capacity
    ensures Scan(agg, capacity, cur, load) == Scan(agg[1..], capacity, cur + [agg[0]], Load(cur + [agg[0]]))
  {
    LoadAppend(cur, agg[0]);
  }

  /** No cut inside any trip the scan closes. */
  lemma {:induction false} ScanFits(agg: seq<DestCount>, capacity: int, cur: Trip, load: int, from: nat)
    requires load == Load(cur) && Fits(cur, capacity, from)
    ensures var r := Scan(agg, capacity, cur, load);
      && (|r| > 0 ==> Fits(r[0], capacity, from))
      && LaterFit(r, capacity)
    decreases |agg|
  {
    var r := Scan(agg, capacity, cur, load);
    if |agg| == 0 {
    } else if load + agg[0].count > capacity {
      ScanCutStep(agg, capacity, cur, load);
      var rest := Scan(agg[1..], capacity, [agg[0]], agg[0].count);
      ScanFits(agg[1..], capacity, [agg[0]], agg[0].count, 1);
      assert r == [cur] + rest;
      forall a | 1 <= a < |r|
        ensures Fits(r[a], capacity, 1)
      {
        assert r[a] == rest[a - 1];
      }
    } else {
      var next := cur + [agg[0]];
      FitsExtend(cur, agg[0], capacity, from);
      ScanFitStep(agg, capacity, cur, load);
      ScanFits(agg[1..], capacity, next, Load(next), from);
    }
  }

  /** Every boundary the scan produces is a cut. */
  lemma {:induction false} ScanCuts(agg: seq<DestCount>, capacity: int, cur: Trip, load: int)
    requires load == Load(cur)
    ensures AllCut(Scan(agg, capacity, cur, load), capacity)
    decreases |agg|
  {
    var r := Scan(agg, capacity, cur, load);
    if |agg| == 0 {
    } else if load + agg[0].count > capacity {
      ScanCutStep(agg, capacity, cur, load);
      var rest := Scan(agg[1..], capacity, [agg[0]], agg[0].count);
      ScanCuts(agg[1..], capacity, [agg[0]], agg[0].count);
      ScanFlatten(agg[1..], capacity, [agg[0]], agg[0].count);
      assert r == [cur] + rest;
      assert rest[0][0] == agg[0];
      forall a | 0 <= a < |r| - 1
        ensures Cut(r[a], r[a + 1], capacity)
      {
        if a > 0 {
          assert r[a] == rest[a - 1] && r[a + 1] == rest[a];
        }
      }
    } else {
      var next := cur + [agg[0]];
      ScanFitStep(agg, capacity, cur, load);
      ScanCuts(agg[1..], capacity, next, Load(next));
    }
  }

  /** The scan obeys the greedy rule. */
  lemma PartitionIsGreedy(agg: seq<DestCount>, capacity: int)
    ensures GreedySplit(Partition(agg, capacity), agg, capacity)
  {
    var r := Partition(agg, capacity);
    ScanFlatten(agg, capacity, [], 0);
    ScanFits(agg, capacity, [], 0, 0);
    ScanCuts(agg, capacity, [], 0);
    forall a | 0 <= a < |r| && |r[a]| == 0
      ensures a == 0 && |r| > 1
    {
    }
  }

  /** The greedy rule without the concatenation requirement, for a trip
      sequence whose first trip is checked for cuts from position `from`. */
  ghost predicate GreedyShape(trips: seq<Trip>, capacity: int, from: nat)
  {
    && (forall a :: 0 <= a < |trips| && |trips[a]| == 0 ==> a == 0 && |trips| > 1)
    && (|trips| > 0 ==> Fits(trips[0], capacity, from))
    && LaterFit(trips, capacity)
    && AllCut(trips, capacity)
  }

  /** Any trip sequence obeying the greedy rule from state (cur, Load(cur))
      is the one the scan produces. */
  lemma {:induction false} GreedyDeterminesScan(trips: seq<Trip>, agg: seq<DestCount>, capacity: int, cur: Trip, from: nat)
    requires from <= |cur| && GreedyShape(trips, capacity, from)
    requires Flatten(trips) == cur + agg
    requires |trips| > 0 ==> cur <= trips[0]
    ensures trips == Scan(agg, capacity, cur, Load(cur))
    decreases |agg|
  {
    if |trips| > 0 {
      assert Flatten(trips) == trips[0] + Flatten(trips[1..]);
    }
    if |agg| == 0 {
      if |trips| > 0 {
        assert trips[0] == cur;
      }
    } else {
      var e := agg[0];
      assert |trips| > 0;
      if |trips[0]| > |cur| {
        assert trips[0][|cur|] == (cur + agg)[|cur|] == e;
        assert trips[0][..|cur|] == cur;
        LoadAppend(cur, e);
        assert cur + [e] <= trips[0] by {
          assert trips[0][..|cur| + 1] == cur + [e];
        }
        assert cur + [e] + agg[1..] == cur + agg;
        GreedyDeterminesScan(trips, agg[1..], capacity, cur + [e], from);
      } else {
        assert trips[0] == cur;
        var tail := trips[1..];
        assert Flatten(tail) == agg by {
          assert (cur + Flatten(tail))[|cur|..] == Flatten(tail);
          assert (cur + agg)[|cur|..] == agg;
        }
        assert |trips| > 1;
        assert Flatten(tail) == tail[0] + Flatten(tail[1..]);
        assert tail[0][0] == e;
        assert Cut(trips[0], trips[1], capacity);
        LoadSingle(e);
        assert [e] <= tail[0] && [e] + agg[1..] == agg;
        GreedyTail(trips, capacity, from);
        GreedyDeterminesScan(tail, agg[1..], capacity, [e], 1);
        assert trips == [cur] + tail;
      }
    }
  }

  /** Dropping the first trip of a greedy trip sequence leaves one. */
  lemma GreedyTail(trips: seq<Trip>, capacity: int, from: nat)
    requires GreedyShape(trips, capacity, from) && |trips| > 1
    ensures GreedyShape(trips[1..], capacity, 1)
  {
    var tail := trips[1..];
    forall a | 0 <= a < |tail| - 1
      ensures Cut(tail[a], tail[a + 1], capacity)
    {
      assert Cut(trips[a + 1], trips[a + 2], capacity);
    }
    forall a | 0 <= a < |tail|
      ensures Fits(tail[a], capacity, 1) && |tail[a]| > 0
    {
      assert tail[a] == trips[a + 1];
    }
  }

  /** The greedy rule determines the partition: the scan's result is the only
      trip sequence obeying it. */
  lemma GreedySplitUnique(trips: seq<Trip>, agg: seq<DestCount>, capacity: int)
    requires GreedySplit(trips, agg, capacity)
    ensures trips == Partition(agg, capacity)
  {
    GreedyDeterminesScan(trips, agg, capacity, [], 0);
  }

  /** A trip with two or more destinations never exceeds the capacity. */
  lemma TripWithinCapacity(t: Trip, capacity: int)
    requires Fits(t, capacity, 1) && |t| >= 2
    ensures Load(t) <= capacity
  {
    assert Load(t[..|t| - 1]) + t[|t| - 1].count <= capacity;
  }

  /** Every trip of the partition with two or more destinations carries at
      most the capacity; each destination's demand stays whole in one trip. */
  lemma PartitionWithinCapacity(agg: seq<DestCount>, capacity: int)
    ensures var r := Partition(agg, capacity);
      forall a :: 0 <= a < |r| && |r[a]| >= 2 ==> Load(r[a]) <= capacity
  {
    var r := Partition(agg, capacity);
    PartitionIsGreedy(agg, capacity);
    forall a | 0 <= a < |r| && |r[a]| >= 2
      ensures Load(r[a]) <= capacity
    {
      assert Fits(r[a], capacity, 1);
      TripWithinCapacity(r[a], capacity);
    }
  }

  /** The only empty trip the scan can close is the first one, and only
      when the first destination alone exceeds the capacity. */
  lemma EmptyTripIff(agg: seq<DestCount>, capacity: int)
    ensures var r := Partition(agg, capacity);
      (exists a :: 0 <= a < |r| && |r[a]| == 0) <==> |agg| > 0 && agg[0].count > capacity
  {
    var r := Partition(agg, capacity);
    PartitionIsGreedy(agg, capacity);
    if |agg| > 0 && agg[0].count > capacity {
      assert r == [[]] + Scan(agg[1..], capacity, [agg[0]], agg[0].count);
      assert |r[0]| == 0;
    }
    if a :| 0 <= a < |r| && |r[a]| == 0 {
      assert a == 0 && |r| > 1;
      assert Cut(r[0], r[1], capacity);
      assert Flatten(r) == r[0] + (r[1] + Flatten(r[2..])) by {
        assert Flatten(r[1..]) == r[1] + Flatten(r[1..][1..]);
        assert r[1..][1..] == r[2..];
      }
      assert agg[0] == r[1][0];
    }
  }
}
