/**
  Demand aggregation (TPO.py:191-194).

  Packages are scanned in the iteration order of the package mapping (the
  order they were read in, not sorted by package identifier) and counted per
  destination. The resulting destinations keep their first-occurrence
  order, as a Python dict keeps insertion order when an existing key's value
  is updated.
 */
module Demand {

  /** One destination with the number of packages bound for it. */
  datatype DestCount = DestCount(dest: nat, count: nat)

  function Dests(agg: seq<DestCount>): (ds: seq<nat>)
    ensures |ds| == |agg|
    ensures forall a :: 0 <= a < |agg| ==> ds[a] == agg[a].dest
  {
    seq(|agg|, a requires 0 <= a < |agg| => agg[a].dest)
  }

  function Total(agg: seq<DestCount>): nat
  {
    if |agg| == 0 then 0 else agg[0].count + Total(agg[1..])
  }

  predicate DistinctDests(agg: seq<DestCount>)
  {
    forall a, b :: 0 <= a < b < |agg| ==> agg[a].dest != agg[b].dest
  }

  /** Position of the first occurrence of `x` in `s`. */
  function FirstIndex(s: seq<nat>, x: nat): (r: nat)
    requires x in s
    ensures r < |s| && s[r] == x && x !in s[..r]
  {
    if s[0] == x then 0 else 1 + FirstIndex(s[1..], x)
  }

  /** Where `d` sits among the entries, or `|agg|` when it is absent. */
  function Find(agg: seq<DestCount>, d: nat): (i: nat)
    ensures i <= |agg|
    ensures i < |agg| ==> agg[i].dest == d
    ensures forall a :: 0 <= a < i ==> agg[a].dest != d
  {
    if |agg| == 0 then 0
    else if agg[0].dest == d then 0
    else 1 + Find(agg[1..], d)
  }

  /** Count one more package for destination `d`, as `dict.get(d, 0) + 1`
      does: bump its entry in place, or append a new entry with count 1. */
  function Tally(agg: seq<DestCount>, d: nat): (r: seq<DestCount>)
    requires DistinctDests(agg)
    ensures |r| == if d in Dests(agg) then |agg| else |agg| + 1
    ensures forall a :: 0 <= a < |agg| ==>
              r[a] == if agg[a].dest == d then DestCount(d, agg[a].count + 1) else agg[a]
    ensures d !in Dests(agg) ==> r[|agg|] == DestCount(d, 1)
  {
    var i := Find(agg, d);
    if i < |agg| then
      assert Dests(agg)[i] == d;
      agg[i := DestCount(d, agg[i].count + 1)]
    else
      agg + [DestCount(d, 1)]
  }

  /** Tallying keeps the destinations distinct and the destination list
      unchanged or extended by `d`. */
  lemma TallyDests(agg: seq<DestCount>, d: nat)
    requires DistinctDests(agg)
    ensures DistinctDests(Tally(agg, d))
    ensures Dests(Tally(agg, d)) == if d in Dests(agg) then Dests(agg) else Dests(agg) + [d]
  {
    var r := Tally(agg, d);
    if d in Dests(agg) {
      assert Dests(r) == Dests(agg);
    } else {
      assert Dests(r) == Dests(agg) + [d];
    }
  }

  /** Tallying adds exactly one package. */
  lemma TallyTotal(agg: seq<DestCount>, d: nat)
    requires DistinctDests(agg)
    ensures Total(Tally(agg, d)) == Total(agg) + 1
  {
    var i := Find(agg, d);
    if i < |agg| {
      TotalUpdate(agg, i, DestCount(d, agg[i].count + 1));
    } else {
      TotalAppend(agg, DestCount(d, 1));
    }
  }

  lemma {:induction false} TotalUpdate(agg: seq<DestCount>, i: nat, e: DestCount)
    requires i < |agg|
    ensures Total(agg[i := e]) + agg[i].count == Total(agg) + e.count
    decreases |agg|
  {
    if i > 0 {
      assert agg[i := e][1..] == agg[1..][i - 1 := e];
      TotalUpdate(agg[1..], i - 1, e);
    }
  }

  lemma {:induction false} TotalAppend(agg: seq<DestCount>, e: DestCount)
    ensures Total(agg + [e]) == Total(agg) + e.count
    decreases |agg|
  {
    if |agg| > 0 {
      assert (agg + [e])[1..] == agg[1..] + [e];
      TotalAppend(agg[1..], e);
    }
  }

  /** `paquetes_por_destino`: per-destination counts in first-occurrence order. */
  function Aggregate(dests: seq<nat>): (r: seq<DestCount>)
    ensures Summarises(dests, r)
    decreases |dests|
  {
    if |dests| == 0 then []
    else
      var front, d := dests[..|dests| - 1], dests[|dests| - 1];
      SplitLast(dests);
      var prev := Aggregate(front);
      TallyStep(front, prev, d, dests);
      Tally(prev, d)
  }

  lemma SplitLast(s: seq<nat>)
    requires |s| > 0
    ensures s == s[..|s| - 1] + [s[|s| - 1]]
  {
  }

  /** Each demand entry belongs to a package destination. */
  lemma AggregateMember(dests: seq<nat>, e: DestCount)
    requires e in Aggregate(dests)
    ensures e.dest in dests
  {
    var agg := Aggregate(dests);
    var y :| 0 <= y < |agg| && agg[y] == e;
    assert Dests(agg)[y] == e.dest;
  }

  /** Each package destination has a demand entry. */
  lemma AggregateIndex(dests: seq<nat>, d: nat) returns (y: nat)
    requires d in dests
    ensures y < |Aggregate(dests)| && Aggregate(dests)[y].dest == d
  {
    var agg := Aggregate(dests);
    assert d in Dests(agg);
    y :| 0 <= y < |agg| && Dests(agg)[y] == d;
  }

  /** `r` is the demand of the packages `dests`: one entry per distinct
      destination, exactly the destinations of the packages, each counting
      that destination's packages, in order of first occurrence, and all
      counts together equal to the number of packages. */
  ghost predicate Summarises(dests: seq<nat>, r: seq<DestCount>)
  {
    && DistinctDests(r)
    && SameKeys(dests, r)
    && CountsMatch(dests, r)
    && FirstOccurrenceOrder(dests, r)
    && Total(r) == |dests|
  }

  ghost predicate SameKeys(dests: seq<nat>, r: seq<DestCount>)
  {
    forall d :: d in dests <==> d in Dests(r)
  }

  ghost predicate CountsMatch(dests: seq<nat>, r: seq<DestCount>)
  {
    forall a :: 0 <= a < |r| ==> r[a].count == multiset(dests)[r[a].dest] && r[a].count >= 1
  }

  ghost predicate FirstOccurrenceOrder(dests: seq<nat>, r: seq<DestCount>)
  {
    forall a, b :: 0 <= a < b < |r| ==>
      r[a].dest in dests && r[b].dest in dests &&
      FirstIndex(dests, r[a].dest) < FirstIndex(dests, r[b].dest)
  }

  /** Counting one more package keeps the summary. */
  lemma TallyStep(front: seq<nat>, prev: seq<DestCount>, d: nat, dests: seq<nat>)
    requires Summarises(front, prev) && dests == front + [d]
    ensures Summarises(dests, Tally(prev, d))
  {
    TallyDests(prev, d);
    TallyTotal(prev, d);
    TallyKeys(front, prev, d, dests);
    TallyCounts(front, prev, d, dests);
    TallyOrder(front, prev, d, dests);
  }

  lemma TallyKeys(front: seq<nat>, prev: seq<DestCount>, d: nat, dests: seq<nat>)
    requires DistinctDests(prev) && SameKeys(front, prev) && dests == front + [d]
    ensures SameKeys(dests, Tally(prev, d))
  {
    TallyDests(prev, d);
  }

  lemma TallyCounts(front: seq<nat>, prev: seq<DestCount>, d: nat, dests: seq<nat>)
    requires DistinctDests(prev) && SameKeys(front, prev) && CountsMatch(front, prev)
    requires dests == front + [d]
    ensures CountsMatch(dests, Tally(prev, d))
  {
    var r := Tally(prev, d);
    forall a | 0 <= a < |r|
      ensures r[a].count == multiset(dests)[r[a].dest] && r[a].count >= 1
    {
      if a < |prev| {
        assert r[a].dest == prev[a].dest;
      } else {
        assert d !in front;
      }
    }
  }

  lemma TallyOrder(front: seq<nat>, prev: seq<DestCount>, d: nat, dests: seq<nat>)
    requires DistinctDests(prev) && SameKeys(front, prev) && FirstOccurrenceOrder(front, prev)
    requires dests == front + [d]
    ensures FirstOccurrenceOrder(dests, Tally(prev, d))
  {
    var r := Tally(prev, d);
    forall a, b | 0 <= a < b < |r|
      ensures r[a].dest in dests && r[b].dest in dests &&
              FirstIndex(dests, r[a].dest) < FirstIndex(dests, r[b].dest)
    {
      TallyOrderPair(front, prev, d, a, b);
    }
  }

  lemma TallyOrderPair(front: seq<nat>, prev: seq<DestCount>, d: nat, a: nat, b: nat)
    requires DistinctDests(prev) && SameKeys(front, prev) && FirstOccurrenceOrder(front, prev)
    requires a < b < |Tally(prev, d)|
    ensures Tally(prev, d)[a].dest in front + [d] && Tally(prev, d)[b].dest in front + [d]
    ensures FirstIndex(front + [d], Tally(prev, d)[a].dest) < FirstIndex(front + [d], Tally(prev, d)[b].dest)
  {
    var r := Tally(prev, d);
    var x := prev[a].dest;
    assert r[a].dest == x;
    assert x in front by { assert Dests(prev)[a] == x; }
    FirstIndexKept(front, d, x);
    if b < |prev| {
      var y := prev[b].dest;
      assert r[b].dest == y;
      assert y in front by { assert Dests(prev)[b] == y; }
      FirstIndexKept(front, d, y);
      assert FirstIndex(front, x) < FirstIndex(front, y);
    } else {
      assert d !in Dests(prev);
      assert r[b].dest == d && d !in front;
      FirstIndexNew(front, d);
    }
  }

  /** Appending to a sequence keeps the first occurrences already in it. */
  lemma {:induction false} FirstIndexKept(s: seq<nat>, y: nat, x: nat)
    requires x in s
    ensures FirstIndex(s + [y], x) == FirstIndex(s, x)
    decreases |s|
  {
    if s[0] != x {
      assert (s + [y])[1..] == s[1..] + [y];
      FirstIndexKept(s[1..], y, x);
    }
  }

  lemma {:induction false} FirstIndexNew(s: seq<nat>, y: nat)
    requires y !in s
    ensures FirstIndex(s + [y], y) == |s|
    decreases |s|
  {
    if |s| > 0 {
      assert (s + [y])[1..] == s[1..] + [y];
      FirstIndexNew(s[1..], y);
    }
  }

  lemma FirstIndexExtend(s: seq<nat>, y: nat)
    ensures forall x :: x in s ==> FirstIndex(s + [y], x) == FirstIndex(s, x)
    ensures y !in s ==> FirstIndex(s + [y], y) == |s|
  {
    forall x | x in s
      ensures FirstIndex(s + [y], x) == FirstIndex(s, x)
    {
      FirstIndexKept(s, y, x);
    }
    if y !in s {
      FirstIndexNew(s, y);
    }
  }
}
