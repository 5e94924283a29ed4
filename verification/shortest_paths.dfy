/**
  All-pairs shortest paths (`floyd_warshall`, TPO.py:149-173).

  The matrix starts at `Inf` everywhere with zeros on the diagonal; each
  edge, in the order given, then writes its weight into both directions,
  overwriting whatever was there (a self-loop overwrites the diagonal).
  The relaxation runs with the intermediate node `k` as the outermost loop
  and replaces an entry only when going through `k` is strictly shorter.

  `Relax` is the textbook recurrence over the initial matrix; the method
  computes it in place, and the lemmas relate it to path weights.
 */
module ShortestPaths {
  import opened ExtReal

  /** One entry of the edge mapping: an undirected edge with its weight. */
  datatype Edge = Edge(u: nat, v: nat, w: NonNeg)

  type Matrix = seq<seq<Dist>>

  predicate IsSquare(m: Matrix, n: nat)
  {
    |m| == n && forall i :: 0 <= i < n ==> |m[i]| == n
  }

  predicate EdgesIn(edges: seq<Edge>, n: nat)
  {
    forall e :: 0 <= e < |edges| ==> edges[e].u < n && edges[e].v < n
  }

  predicate NoSelfLoops(edges: seq<Edge>)
  {
    forall e :: 0 <= e < |edges| ==> edges[e].u != edges[e].v
  }

  predicate Touches(e: Edge, i: nat, j: nat)
  {
    (e.u == i && e.v == j) || (e.u == j && e.v == i)
  }

  /** The value the initialisation leaves at (i, j): the weight of the last
      edge joining i and j, else 0 on the diagonal and `Inf` elsewhere. */
  function Entry(edges: seq<Edge>, i: nat, j: nat): Dist
    decreases |edges|
  {
    if |edges| == 0 then (if i == j then Zero else Inf)
    else if Touches(edges[|edges| - 1], i, j) then Fin(edges[|edges| - 1].w)
    else Entry(edges[..|edges| - 1], i, j)
  }

  function Initial(n: nat, edges: seq<Edge>): (m: Matrix)
    ensures IsSquare(m, n)
  {
    seq(n, i requires 0 <= i < n => seq(n, j requires 0 <= j < n => Entry(edges, i, j)))
  }

  predicate Symmetric(m: Matrix, n: nat)
    requires IsSquare(m, n)
  {
    forall i, j :: 0 <= i < n && 0 <= j < n ==> m[i][j] == m[j][i]
  }

  predicate ZeroDiagonal(m: Matrix, n: nat)
    requires IsSquare(m, n)
  {
    forall i :: 0 <= i < n ==> m[i][i] == Zero
  }

  /** The initial matrix is symmetric, because every edge is written both
      ways; without self-loops its diagonal is zero. */
  lemma {:induction false} EntrySymmetric(edges: seq<Edge>, i: nat, j: nat)
    ensures Entry(edges, i, j) == Entry(edges, j, i)
    ensures i == j && NoSelfLoops(edges) ==> Entry(edges, i, j) == Zero
    decreases |edges|
  {
    if |edges| > 0 {
      EntrySymmetric(edges[..|edges| - 1], i, j);
    }
  }

  lemma InitialShape(n: nat, edges: seq<Edge>)
    ensures Symmetric(Initial(n, edges), n)
    ensures NoSelfLoops(edges) ==> ZeroDiagonal(Initial(n, edges), n)
  {
    var m := Initial(n, edges);
    forall i, j | 0 <= i < n && 0 <= j < n
      ensures m[i][j] == m[j][i]
      ensures i == j && NoSelfLoops(edges) ==> m[i][j] == Zero
    {
      EntrySymmetric(edges, i, j);
    }
  }

  /** Distances through intermediates `< k`, by the Floyd-Warshall recurrence:
      the entry of round `k` is replaced only when the detour through node
      `k - 1` is strictly shorter. */
  ghost function Relax(m: Matrix, n: nat, k: nat, i: nat, j: nat): Dist
    requires IsSquare(m, n) && k <= n && i < n && j < n
    decreases k
  {
    if k == 0 then m[i][j]
    else
      var via := Add(Relax(m, n, k - 1, i, k - 1), Relax(m, n, k - 1, k - 1, j));
      if Lt(via, Relax(m, n, k - 1, i, j)) then via else Relax(m, n, k - 1, i, j)
  }

  /** Row and column `k - 1` do not change in round `k`, since the diagonal
      entry added to them is never negative. This is what makes the in-place
      update compute the recurrence. */
  lemma PivotStable(m: Matrix, n: nat, k: nat, i: nat)
    requires IsSquare(m, n) && 0 < k <= n && i < n
    ensures Relax(m, n, k, i, k - 1) == Relax(m, n, k - 1, i, k - 1)
    ensures Relax(m, n, k, k - 1, i) == Relax(m, n, k - 1, k - 1, i)
  {
  }

  // ---------------------------------------------------------------------
  // Paths
  // ---------------------------------------------------------------------

  predicate NodesIn(p: seq<nat>, n: nat)
  {
    forall x :: 0 <= x < |p| ==> p[x] < n
  }

  /** Total weight of the walk `p` over the matrix `m`. */
  function Weight(m: Matrix, n: nat, p: seq<nat>): Dist
    requires IsSquare(m, n) && NodesIn(p, n)
  {
    if |p| <= 1 then Zero else Add(m[p[0]][p[1]], Weight(m, n, p[1..]))
  }

  /** `p` is a walk from `i` to `j` whose intermediate nodes are all `< k`. */
  ghost predicate IsPathVia(p: seq<nat>, n: nat, i: nat, j: nat, k: nat)
  {
    && |p| >= 1 && p[0] == i && p[|p| - 1] == j
    && NodesIn(p, n)
    && (forall x :: 0 < x < |p| - 1 ==> p[x] < k)
  }

  /** Prepending a node adds the edge to the old first node. */
  lemma WeightCons(m: Matrix, n: nat, a: nat, p: seq<nat>)
    requires IsSquare(m, n) && a < n && NodesIn(p, n) && |p| > 0
    ensures NodesIn([a] + p, n)
    ensures Weight(m, n, [a] + p) == Add(m[a][p[0]], Weight(m, n, p))
  {
    assert ([a] + p)[1..] == p;
  }

  /** Appending a node adds the edge from the old last node. */
  lemma WeightSnoc(m: Matrix, n: nat, p: seq<nat>, b: nat)
    requires IsSquare(m, n) && NodesIn(p, n) && b < n && |p| > 0
    ensures NodesIn(p + [b], n)
    ensures Weight(m, n, p + [b]) == Add(Weight(m, n, p), m[p[|p| - 1]][b])
  {
    var last := [p[|p| - 1], b];
    WeightJoin(m, n, p, last);
    assert p + last[1..] == p + [b];
    assert Weight(m, n, last) == Add(m[p[|p| - 1]][b], Weight(m, n, [b]));
  }

  /** Walking `p` and then `q` from where `p` ends costs the sum. */
  lemma {:induction false} WeightJoin(m: Matrix, n: nat, p: seq<nat>, q: seq<nat>)
    requires IsSquare(m, n) && NodesIn(p, n) && NodesIn(q, n)
    requires |p| >= 1 && |q| >= 1 && p[|p| - 1] == q[0]
    ensures NodesIn(p + q[1..], n)
    ensures Weight(m, n, p + q[1..]) == Add(Weight(m, n, p), Weight(m, n, q))
    decreases |p|
  {
    if |p| == 1 {
      assert p + q[1..] == q;
    } else {
      WeightJoin(m, n, p[1..], q);
      assert (p + q[1..])[1..] == p[1..] + q[1..];
      AddAssoc(m[p[0]][p[1]], Weight(m, n, p[1..]), Weight(m, n, q));
    }
  }

  /** Optimality: no walk with intermediates `< k` is shorter than the
      round-`k` entry. The diagonal must start at zero, or the one-node walk
      from a node to itself would be shorter than its self-loop. */
  lemma {:induction false} RelaxBelowPaths(m: Matrix, n: nat, k: nat, i: nat, j: nat, p: seq<nat>)
    requires IsSquare(m, n) && ZeroDiagonal(m, n) && k <= n && i < n && j < n
    requires IsPathVia(p, n, i, j, k)
    ensures Le(Relax(m, n, k, i, j), Weight(m, n, p))
    decreases k, |p|
  {
    if k == 0 {
      RelaxBelowBase(m, n, i, j, p);
    } else if x :| 0 < x < |p| - 1 && p[x] == k - 1 {
      var c := k - 1;
      var front, back := p[..x + 1], p[x..];
      SplitPath(p, n, i, j, k, x);
      RelaxBelowPaths(m, n, k, i, c, front);
      RelaxBelowPaths(m, n, k, c, j, back);
      WeightJoin(m, n, front, back);
      DetourBound(m, n, k, i, j, Weight(m, n, front), Weight(m, n, back));
    } else {
      assert IsPathVia(p, n, i, j, k - 1);
      RelaxBelowPaths(m, n, k - 1, i, j, p);
    }
  }

  /** With no intermediates allowed a walk is a single edge or no move. */
  lemma RelaxBelowBase(m: Matrix, n: nat, i: nat, j: nat, p: seq<nat>)
    requires IsSquare(m, n) && ZeroDiagonal(m, n) && i < n && j < n
    requires IsPathVia(p, n, i, j, 0)
    ensures Le(m[i][j], Weight(m, n, p))
  {
    if |p| == 2 {
      assert p == [i, j];
    }
  }

  /** Cutting a walk at an inner visit of `k - 1` gives two walks of the
      same kind that glue back to it. */
  lemma SplitPath(p: seq<nat>, n: nat, i: nat, j: nat, k: nat, x: nat)
    requires IsPathVia(p, n, i, j, k) && 0 < k && 0 < x < |p| - 1 && p[x] == k - 1
    ensures IsPathVia(p[..x + 1], n, i, k - 1, k)
    ensures IsPathVia(p[x..], n, k - 1, j, k)
    ensures p[..x + 1] + p[x..][1..] == p
  {
    assert p[..x + 1] + p[x..][1..] == p[..x + 1] + p[x + 1..];
  }

  /** Two walks through node `k - 1` bound the round-`k` entry by their sum. */
  lemma DetourBound(m: Matrix, n: nat, k: nat, i: nat, j: nat, wf: Dist, wb: Dist)
    requires IsSquare(m, n) && 0 < k <= n && i < n && j < n
    requires Le(Relax(m, n, k, i, k - 1), wf) && Le(Relax(m, n, k, k - 1, j), wb)
    ensures Le(Relax(m, n, k, i, j), Add(wf, wb))
  {
    var c := k - 1;
    PivotStable(m, n, k, i);
    PivotStable(m, n, k, j);
    AddMono(Relax(m, n, c, i, c), Relax(m, n, c, c, j), wf, wb);
  }

  /** Soundness: a finite round-`k` entry is the weight of an actual walk
      with intermediates `< k`. */
  ghost function Witness(m: Matrix, n: nat, k: nat, i: nat, j: nat): (p: seq<nat>)
    requires IsSquare(m, n) && k <= n && i < n && j < n
    requires Relax(m, n, k, i, j).Fin?
    ensures IsPathVia(p, n, i, j, k)
    ensures Weight(m, n, p) == Relax(m, n, k, i, j)
    decreases k
  {
    if k == 0 then
      [i, j]
    else
      var c := k - 1;
      var via := Add(Relax(m, n, c, i, c), Relax(m, n, c, c, j));
      if Lt(via, Relax(m, n, c, i, j)) then
        var front, back := Witness(m, n, c, i, c), Witness(m, n, c, c, j);
        WeightJoin(m, n, front, back);
        front + back[1..]
      else
        Witness(m, n, c, i, j)
  }

  /** Every round only lowers entries. */
  lemma {:induction false} RelaxBelowInitial(m: Matrix, n: nat, k: nat, i: nat, j: nat)
    requires IsSquare(m, n) && k <= n && i < n && j < n
    ensures Le(Relax(m, n, k, i, j), m[i][j])
    decreases k
  {
    if k > 0 {
      RelaxBelowInitial(m, n, k - 1, i, j);
    }
  }

  lemma {:induction false} RelaxSymmetric(m: Matrix, n: nat, k: nat, i: nat, j: nat)
    requires IsSquare(m, n) && Symmetric(m, n) && k <= n && i < n && j < n
    ensures Relax(m, n, k, i, j) == Relax(m, n, k, j, i)
    decreases k
  {
    if k > 0 {
      var c := k - 1;
      RelaxSymmetric(m, n, c, i, j);
      RelaxSymmetric(m, n, c, i, c);
      RelaxSymmetric(m, n, c, c, j);
      AddComm(Relax(m, n, c, i, c), Relax(m, n, c, c, j));
    }
  }

  lemma {:induction false} RelaxZeroDiagonal(m: Matrix, n: nat, k: nat, i: nat)
    requires IsSquare(m, n) && ZeroDiagonal(m, n) && k <= n && i < n
    ensures Relax(m, n, k, i, i) == Zero
    decreases k
  {
    if k > 0 {
      RelaxZeroDiagonal(m, n, k - 1, i);
    }
  }

  /** Joining a walk i..c with a walk c..j gives a walk i..j over all nodes. */
  ghost function JoinPaths(m: Matrix, n: nat, front: seq<nat>, back: seq<nat>, i: nat, c: nat, j: nat): (p: seq<nat>)
    requires IsSquare(m, n) && IsPathVia(front, n, i, c, n) && IsPathVia(back, n, c, j, n)
    ensures IsPathVia(p, n, i, j, n)
    ensures Weight(m, n, p) == Add(Weight(m, n, front), Weight(m, n, back))
  {
    WeightJoin(m, n, front, back);
    front + back[1..]
  }

  /** The final matrix obeys the triangle inequality: it is built from walks
      (soundness) and no walk beats it (optimality). */
  lemma Triangle(m: Matrix, n: nat, i: nat, j: nat, c: nat)
    requires IsSquare(m, n) && ZeroDiagonal(m, n) && i < n && j < n && c < n
    ensures Le(Relax(m, n, n, i, j), Add(Relax(m, n, n, i, c), Relax(m, n, n, c, j)))
  {
    if Relax(m, n, n, i, c).Fin? && Relax(m, n, n, c, j).Fin? {
      var front, back := Witness(m, n, n, i, c), Witness(m, n, n, c, j);
      var p := JoinPaths(m, n, front, back, i, c, j);
      RelaxBelowPaths(m, n, n, i, j, p);
    }
  }

  /** Every finite entry is the weight of a walk over `m`. */
  ghost predicate Realised(d: Matrix, m: Matrix, n: nat)
    requires IsSquare(d, n) && IsSquare(m, n)
  {
    forall i, j :: 0 <= i < n && 0 <= j < n && d[i][j].Fin? ==>
      exists p :: IsPathVia(p, n, i, j, n) && Weight(m, n, p) == d[i][j]
  }

  /** No walk over `m` is shorter than the entry for its endpoints. */
  ghost predicate NoShorterWalk(d: Matrix, m: Matrix, n: nat)
    requires IsSquare(d, n) && IsSquare(m, n)
  {
    forall i, j, p :: 0 <= i < n && 0 <= j < n && IsPathVia(p, n, i, j, n) ==>
      Le(d[i][j], Weight(m, n, p))
  }

  predicate TriangleInequality(d: Matrix, n: nat)
    requires IsSquare(d, n)
  {
    forall i, j, c :: 0 <= i < n && 0 <= j < n && 0 <= c < n ==> Le(d[i][j], Add(d[i][c], d[c][j]))
  }

  predicate BelowMatrix(d: Matrix, m: Matrix, n: nat)
    requires IsSquare(d, n) && IsSquare(m, n)
  {
    forall i, j :: 0 <= i < n && 0 <= j < n ==> Le(d[i][j], m[i][j])
  }

  /** What the final matrix promises: symmetric, never above the initial
      matrix, every finite entry the weight of some walk; without self-loops
      also a zero diagonal, no shorter walk, and the triangle inequality. */
  ghost predicate ShortestPathMatrix(d: Matrix, n: nat, edges: seq<Edge>)
  {
    var m := Initial(n, edges);
    && IsSquare(d, n)
    && Symmetric(d, n)
    && BelowMatrix(d, m, n)
    && Realised(d, m, n)
    && (NoSelfLoops(edges) ==> ZeroDiagonal(d, n) && NoShorterWalk(d, m, n) && TriangleInequality(d, n))
  }

  ghost predicate IsRound(d: Matrix, m: Matrix, n: nat, k: nat)
    requires IsSquare(m, n) && k <= n
  {
    IsSquare(d, n) && forall i, j :: 0 <= i < n && 0 <= j < n ==> d[i][j] == Relax(m, n, k, i, j)
  }

  lemma FinalSymmetricBelow(m: Matrix, n: nat, d: Matrix)
    requires IsSquare(m, n) && Symmetric(m, n) && IsRound(d, m, n, n)
    ensures Symmetric(d, n) && BelowMatrix(d, m, n)
  {
    forall i, j | 0 <= i < n && 0 <= j < n
      ensures d[i][j] == d[j][i]
    {
      RelaxSymmetric(m, n, n, i, j);
    }
    forall i, j | 0 <= i < n && 0 <= j < n
      ensures Le(d[i][j], m[i][j])
    {
      RelaxBelowInitial(m, n, n, i, j);
    }
  }

  lemma FinalRealised(m: Matrix, n: nat, d: Matrix)
    requires IsSquare(m, n) && IsRound(d, m, n, n)
    ensures Realised(d, m, n)
  {
    forall i, j | 0 <= i < n && 0 <= j < n && d[i][j].Fin?
      ensures exists p :: IsPathVia(p, n, i, j, n) && Weight(m, n, p) == d[i][j]
    {
      var p := Witness(m, n, n, i, j);
    }
  }

  lemma FinalShortest(m: Matrix, n: nat, d: Matrix)
    requires IsSquare(m, n) && ZeroDiagonal(m, n) && IsRound(d, m, n, n)
    ensures ZeroDiagonal(d, n) && NoShorterWalk(d, m, n) && TriangleInequality(d, n)
  {
    forall i | 0 <= i < n
      ensures d[i][i] == Zero
    {
      RelaxZeroDiagonal(m, n, n, i);
    }
    forall i, j, p | 0 <= i < n && 0 <= j < n && IsPathVia(p, n, i, j, n)
      ensures Le(d[i][j], Weight(m, n, p))
    {
      RelaxBelowPaths(m, n, n, i, j, p);
    }
    forall i, j, c | 0 <= i < n && 0 <= j < n && 0 <= c < n
      ensures Le(d[i][j], Add(d[i][c], d[c][j]))
    {
      Triangle(m, n, i, j, c);
    }
  }

  /** The matrix of round `n` is a shortest-path matrix. */
  lemma FinalMatrix(n: nat, edges: seq<Edge>, d: Matrix)
    requires IsRound(d, Initial(n, edges), n, n)
    ensures ShortestPathMatrix(d, n, edges)
  {
    var m := Initial(n, edges);
    InitialShape(n, edges);
    FinalSymmetricBelow(m, n, d);
    FinalRealised(m, n, d);
    if NoSelfLoops(edges) {
      FinalShortest(m, n, d);
    }
  }

  // ---------------------------------------------------------------------
  // The in-place algorithm
  // ---------------------------------------------------------------------

  /** `floyd_warshall`: the initial matrix, then one in-place pass per
      pivot `k` in increasing order. */
  method FloydWarshall(n: nat, edges: seq<Edge>) returns (dist: Matrix)
    requires EdgesIn(edges, n)
    ensures IsSquare(dist, n)
    ensures forall i, j :: 0 <= i < n && 0 <= j < n ==>
              dist[i][j] == Relax(Initial(n, edges), n, n, i, j)
    ensures ShortestPathMatrix(dist, n, edges)
  {
    dist := InitialMatrix(n, edges);
    ghost var init := Initial(n, edges);
    var k := 0;
    while k < n
      invariant 0 <= k <= n
      invariant IsSquare(dist, n)
      invariant forall a, b :: 0 <= a < n && 0 <= b < n ==> dist[a][b] == Relax(init, n, k, a, b)
    {
      dist := RelaxRound(dist, n, k, init);
      k := k + 1;
    }
    FinalMatrix(n, edges, dist);
  }

  /** TPO.py:159-164: `Inf` everywhere, 0 on the diagonal, then each edge's
      weight written in both directions, later edges overwriting earlier
      ones. */
  method InitialMatrix(n: nat, edges: seq<Edge>) returns (dist: Matrix)
    requires EdgesIn(edges, n)
    ensures IsSquare(dist, n)
    ensures forall i, j :: 0 <= i < n && 0 <= j < n ==> dist[i][j] == Entry(edges, i, j)
  {
    dist := seq(n, i => seq(n, j => Inf));
    var d := 0;
    while d < n
      invariant 0 <= d <= n
      invariant IsSquare(dist, n)
      invariant forall i, j :: 0 <= i < n && 0 <= j < n ==>
                  dist[i][j] == (if i == j && i < d then Zero else Inf)
    {
      dist := dist[d := dist[d][d := Zero]];
      d := d + 1;
    }
    var e := 0;
    while e < |edges|
      invariant 0 <= e <= |edges|
      invariant IsSquare(dist, n)
      invariant forall i, j :: 0 <= i < n && 0 <= j < n ==> dist[i][j] == Entry(edges[..e], i, j)
    {
      var edge := edges[e];
      dist := dist[edge.u := dist[edge.u][edge.v := Fin(edge.w)]];
      dist := dist[edge.v := dist[edge.v][edge.u := Fin(edge.w)]];
      assert edges[..e + 1][..e] == edges[..e];
      e := e + 1;
    }
    assert edges[..e] == edges;
  }

  /** One pass of the outer loop (pivot `k`): turns round `k` of the
      recurrence into round `k + 1`, updating in place. */
  method RelaxRound(d0: Matrix, n: nat, k: nat, ghost init: Matrix) returns (dist: Matrix)
    requires IsSquare(init, n) && k < n && IsSquare(d0, n)
    requires forall a, b :: 0 <= a < n && 0 <= b < n ==> d0[a][b] == Relax(init, n, k, a, b)
    ensures IsSquare(dist, n)
    ensures forall a, b :: 0 <= a < n && 0 <= b < n ==> dist[a][b] == Relax(init, n, k + 1, a, b)
  {
    dist := d0;
    var i := 0;
    while i < n
      invariant 0 <= i <= n
      invariant IsSquare(dist, n)
      invariant forall a, b :: 0 <= a < n && 0 <= b < n ==>
                  dist[a][b] == (if a < i then Relax(init, n, k + 1, a, b) else Relax(init, n, k, a, b))
    {
      dist := RelaxRow(dist, n, k, i, init);
      i := i + 1;
    }
  }

  /** The inner loop for row `i` of pivot `k`. Entries `dist[i][k]` and
      `dist[k][j]` read mid-round already hold round `k + 1` values, which
      equal their round-`k` values. */
  method RelaxRow(d0: Matrix, n: nat, k: nat, i: nat, ghost init: Matrix) returns (dist: Matrix)
    requires IsSquare(init, n) && k < n && i < n && IsSquare(d0, n)
    requires forall a, b :: 0 <= a < n && 0 <= b < n ==>
               d0[a][b] == (if a < i then Relax(init, n, k + 1, a, b) else Relax(init, n, k, a, b))
    ensures IsSquare(dist, n)
    ensures forall a, b :: 0 <= a < n && 0 <= b < n ==>
              dist[a][b] == (if a <= i then Relax(init, n, k + 1, a, b) else Relax(init, n, k, a, b))
  {
    dist := d0;
    var j := 0;
    while j < n
      invariant 0 <= j <= n
      invariant IsSquare(dist, n)
      invariant forall a, b :: 0 <= a < n && 0 <= b < n ==>
                  dist[a][b] == (if a < i || (a == i && b < j) then Relax(init, n, k + 1, a, b)
                                 else Relax(init, n, k, a, b))
    {
      PivotStable(init, n, k + 1, i);
      PivotStable(init, n, k + 1, j);
      var via := Add(dist[i][k], dist[k][j]);
      if Lt(via, dist[i][j]) {
        dist := dist[i := dist[i][j := via]];
      }
      j := j + 1;
    }
  }
}
