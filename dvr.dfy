/**
 * `simulateDVR` of A4/routing_sim.cpp: every node's distance row starts as
 * its links and is lowered through its neighbours' rows until a whole
 * round changes nothing. The tables are the `n` by `n` arrays the loops
 * update in place; what they promise is stated on their contents.
 */
module DistanceVector {
  import opened Graph

  /** The contents of a two-dimensional array, row by row. */
  ghost function Rows(a: array2<int>): (m: Matrix)
    reads a
    ensures |m| == a.Length0 && forall i :: 0 <= i < |m| ==> |m[i]| == a.Length1
    ensures forall i, j :: 0 <= i < a.Length0 && 0 <= j < a.Length1 ==> m[i][j] == a[i, j]
  {
    seq(a.Length0, i requires 0 <= i < a.Length0 reads a =>
      seq(a.Length1, j requires 0 <= j < a.Length1 reads a => a[i, j]))
  }

  // ----------------------------------------------------------------------
  // What the tables mean

  /** The next hops before any round: -1 to itself, j over a direct link, -1 otherwise. */
  function InitialHops(graph: Matrix): (hop: Matrix)
    requires IsSquare(graph)
    ensures IsSquareOf(hop, |graph|)
  {
    seq(|graph|, i requires 0 <= i < |graph| =>
      seq(|graph|, j requires 0 <= j < |graph| => if i == j then -1 else if graph[i][j] != INF then j else -1))
  }

  /**
   * Entry (i, j) off the diagonal is a non-negative distance accounted for
   * by the next hop it records: no link and INF; the direct link and its cost; or a
   * neighbour k, with a distance below the direct link's that is at least
   * the link to k plus k's own distance to j.
   */
  predicate Explained(graph: Matrix, dist: Matrix, hop: Matrix, i: int, j: int)
    requires IsSquare(graph) && IsSquareOf(dist, |graph|) && IsSquareOf(hop, |graph|)
    requires 0 <= i < |graph| && 0 <= j < |graph|
  {
    var d, h := dist[i][j], hop[i][j];
    && 0 <= d
    && (|| (h == -1 && graph[i][j] == INF && d == INF)
        || (h == j && graph[i][j] != INF && d == graph[i][j])
        || (0 <= h < |graph| && h != i && h != j && graph[i][h] != INF
            && graph[i][h] + dist[h][j] <= d < graph[i][j]))
  }

  /** The invariant of the tables throughout `simulateDVR`. */
  predicate Table(graph: Matrix, dist: Matrix, hop: Matrix)
    requires IsSquare(graph)
  {
    && IsSquareOf(dist, |graph|) && IsSquareOf(hop, |graph|)
    && (forall i :: 0 <= i < |graph| ==> dist[i][i] == graph[i][i] && hop[i][i] == -1)
    && (forall i, j :: 0 <= i < |graph| && 0 <= j < |graph| && i != j ==> Explained(graph, dist, hop, i, j))
  }

  /** No neighbour k of i below `bound` offers a shorter way to j. */
  predicate StableBelow(graph: Matrix, dist: Matrix, i: int, j: int, bound: int)
    requires IsSquare(graph) && IsSquareOf(dist, |graph|)
    requires 0 <= i < |graph| && 0 <= j < |graph| && bound <= |graph|
  {
    forall k :: 0 <= k < bound && k != i && k != j && graph[i][k] != INF ==>
      dist[i][j] <= graph[i][k] + dist[k][j]
  }

  /** No neighbour k of i offers a shorter way to j. */
  predicate StableAt(graph: Matrix, dist: Matrix, i: int, j: int)
    requires IsSquare(graph) && IsSquareOf(dist, |graph|)
    requires 0 <= i < |graph| && 0 <= j < |graph|
  {
    StableBelow(graph, dist, i, j, |graph|)
  }

  /** The condition on which the `do … while (updated)` loop exits. */
  predicate Stable(graph: Matrix, dist: Matrix)
    requires IsSquare(graph) && IsSquareOf(dist, |graph|)
  {
    forall i, j :: 0 <= i < |graph| && 0 <= j < |graph| && i != j ==> StableAt(graph, dist, i, j)
  }

  /** Some path from i to j costs at most c. */
  ghost predicate ReachableWithin(graph: Matrix, i: int, j: int, c: int)
    requires IsSquare(graph)
  {
    exists p :: IsPath(graph, p) && p[0] == i && p[|p| - 1] == j && PathCost(graph, p) <= c
  }

  /** Every finite distance off the diagonal is backed by a path that costs no more. */
  ghost predicate Witnessed(graph: Matrix, dist: Matrix)
    requires IsSquare(graph) && IsSquareOf(dist, |graph|)
  {
    forall i, j :: 0 <= i < |graph| && 0 <= j < |graph| && i != j && dist[i][j] < INF ==>
      ReachableWithin(graph, i, j, dist[i][j])
  }

  // ----------------------------------------------------------------------
  // The termination measure: the sum of the entries off the diagonal

  function RowCost(row: seq<int>, i: int): int {
    if row == [] then 0 else RowCost(row[..|row| - 1], i) + (if |row| - 1 == i then 0 else row[|row| - 1])
  }

  function Cost(m: Matrix): int {
    if m == [] then 0 else Cost(m[..|m| - 1]) + RowCost(m[|m| - 1], |m| - 1)
  }

  lemma {:induction false} RowCostUpdate(row: seq<int>, i: int, j: nat, v: int)
    requires j < |row| && j != i
    ensures RowCost(row[j := v], i) == RowCost(row, i) - row[j] + v
    decreases |row|
  {
    var n := |row| - 1;
    if j < n {
      assert row[j := v][..n] == row[..n][j := v];
      RowCostUpdate(row[..n], i, j, v);
    } else {
      assert row[j := v][..n] == row[..n];
    }
  }

  lemma {:induction false} CostUpdate(m: Matrix, i: nat, j: nat, v: int)
    requires i < |m| && j < |m[i]| && i != j
    ensures Cost(m[i := m[i][j := v]]) == Cost(m) - m[i][j] + v
    decreases |m|
  {
    var n := |m| - 1;
    var m' := m[i := m[i][j := v]];
    if i < n {
      assert m'[..n] == m[..n][i := m[i][j := v]];
      CostUpdate(m[..n], i, j, v);
    } else {
      assert m'[..n] == m[..n];
      RowCostUpdate(m[i], i, j, v);
    }
  }

  lemma {:induction false} RowCostNonNegative(row: seq<int>, i: int)
    requires forall j :: 0 <= j < |row| && j != i ==> row[j] >= 0
    ensures RowCost(row, i) >= 0
    decreases |row|
  {
    if row != [] {
      RowCostNonNegative(row[..|row| - 1], i);
    }
  }

  lemma {:induction false} CostNonNegative(m: Matrix)
    requires forall i, j :: 0 <= i < |m| && 0 <= j < |m[i]| && i != j ==> m[i][j] >= 0
    ensures Cost(m) >= 0
    decreases |m|
  {
    if m != [] {
      CostNonNegative(m[..|m| - 1]);
      RowCostNonNegative(m[|m| - 1], |m| - 1);
    }
  }

  /** The measure of a table is never negative, so the rounds cannot lower it forever. */
  lemma TableCostNonNegative(graph: Matrix, dist: Matrix, hop: Matrix)
    requires IsSquare(graph) && Table(graph, dist, hop)
    ensures Cost(dist) >= 0
  {
    forall i, j | 0 <= i < |dist| && 0 <= j < |dist[i]| && i != j ensures dist[i][j] >= 0 {
      assert Explained(graph, dist, hop, i, j);
    }
    CostNonNegative(dist);
  }

  // ----------------------------------------------------------------------
  // The properties of the tables

  /** The tables set up before the first round satisfy the invariant. */
  lemma InitialTable(graph: Matrix)
    requires IsSquare(graph) && NonNegative(graph)
    ensures Table(graph, graph, InitialHops(graph))
  {
    var hop := InitialHops(graph);
    forall i, j | 0 <= i < |graph| && 0 <= j < |graph| && i != j
      ensures Explained(graph, graph, hop, i, j)
    {
      assert hop[i][j] == if graph[i][j] != INF then j else -1;
    }
  }

  /**
   * One update strictly lowers `dist[i][j]` to the cost `d` through
   * neighbour k and records k as the next hop, changing no other entry: it
   * keeps the invariant, and the measure drops.
   */
  lemma UpdateKeepsTable(graph: Matrix, dist: Matrix, hop: Matrix, i: nat, j: nat, k: nat, d: int)
    requires IsSquare(graph) && NonNegative(graph) && Table(graph, dist, hop)
    requires i < |graph| && j < |graph| && k < |graph| && i != j && k != i && k != j
    requires graph[i][k] != INF && d == graph[i][k] + dist[k][j] && d < dist[i][j]
    ensures Table(graph, dist[i := dist[i][j := d]], hop[i := hop[i][j := k]])
    ensures Cost(dist[i := dist[i][j := d]]) < Cost(dist)
  {
    var dist' := dist[i := dist[i][j := d]];
    var hop' := hop[i := hop[i][j := k]];
    CostUpdate(dist, i, j, d);
    assert IsSquareOf(dist', |graph|) && IsSquareOf(hop', |graph|);
    forall a | 0 <= a < |graph| ensures dist'[a][a] == graph[a][a] && hop'[a][a] == -1 {
      assert dist'[a] == dist[a] || a == i;
    }
    forall a, b | 0 <= a < |graph| && 0 <= b < |graph| && a != b
      ensures Explained(graph, dist', hop', a, b)
    {
      UpdatedEntry(graph, dist, hop, i, j, k, d, a, b);
    }
  }

  /** The entry (a, b) after the update of `UpdateKeepsTable`. */
  lemma UpdatedEntry(graph: Matrix, dist: Matrix, hop: Matrix, i: nat, j: nat, k: nat, d: int, a: nat, b: nat)
    requires IsSquare(graph) && NonNegative(graph) && Table(graph, dist, hop)
    requires i < |graph| && j < |graph| && k < |graph| && i != j && k != i && k != j
    requires graph[i][k] != INF && d == graph[i][k] + dist[k][j] && d < dist[i][j]
    requires a < |graph| && b < |graph| && a != b
    ensures IsSquareOf(dist[i := dist[i][j := d]], |graph|) && IsSquareOf(hop[i := hop[i][j := k]], |graph|)
    ensures Explained(graph, dist[i := dist[i][j := d]], hop[i := hop[i][j := k]], a, b)
  {
    var dist' := dist[i := dist[i][j := d]];
    var hop' := hop[i := hop[i][j := k]];
    assert IsSquareOf(dist', |graph|) && IsSquareOf(hop', |graph|);
    assert Explained(graph, dist, hop, a, b);
    if a == i && b == j {
      assert dist'[k][j] == dist[k][j];
      assert dist'[i][j] == d && hop'[i][j] == k;
      assert Explained(graph, dist, hop, k, j);
    } else {
      assert dist'[a][b] == dist[a][b] && hop'[a][b] == hop[a][b];
      var h := hop[a][b];
      if 0 <= h < |graph| && h != a && h != b {
        assert dist'[h][b] <= dist[h][b];
      }
    }
  }

  /** Before any round, a finite distance is a direct link, itself a path. */
  lemma InitialWitnessed(graph: Matrix)
    requires IsSquare(graph)
    ensures Witnessed(graph, graph)
  {
    forall i, j | 0 <= i < |graph| && 0 <= j < |graph| && i != j && graph[i][j] < INF
      ensures ReachableWithin(graph, i, j, graph[i][j])
    {
      var p := [i, j];
      assert p[1..] == [j];
      assert PathCost(graph, p) == graph[i][j];
    }
  }

  /** The link from i to k in front of a path from k to j is a path from i to j. */
  lemma PrependLink(graph: Matrix, i: int, k: int, j: int, c: int)
    requires IsSquare(graph) && 0 <= i < |graph| && 0 <= k < |graph| && i != k && graph[i][k] != INF
    requires ReachableWithin(graph, k, j, c)
    ensures ReachableWithin(graph, i, j, graph[i][k] + c)
  {
    var q :| IsPath(graph, q) && q[0] == k && q[|q| - 1] == j && PathCost(graph, q) <= c;
    var p := [i] + q;
    assert p[1..] == q;
    assert IsPath(graph, p);
  }

  /** Lowering `dist[i][j]` to the way through neighbour k keeps every distance backed by a path. */
  lemma UpdateKeepsWitnessed(graph: Matrix, dist: Matrix, i: nat, j: nat, k: nat, d: int)
    requires IsSquare(graph) && NonNegative(graph) && IsSquareOf(dist, |graph|) && Witnessed(graph, dist)
    requires i < |graph| && j < |graph| && k < |graph| && i != j && k != i && k != j
    requires graph[i][k] != INF && d == graph[i][k] + dist[k][j]
    ensures Witnessed(graph, dist[i := dist[i][j := d]])
  {
    var dist' := dist[i := dist[i][j := d]];
    forall a, b | 0 <= a < |graph| && 0 <= b < |graph| && a != b && dist'[a][b] < INF
      ensures ReachableWithin(graph, a, b, dist'[a][b])
    {
      if a == i && b == j {
        assert graph[i][k] >= 0;
        PrependLink(graph, i, k, j, dist[k][j]);
      } else {
        assert dist'[a][b] == dist[a][b];
      }
    }
  }

  /** Every distance is at most the cost of the direct link. */
  lemma AtMostDirectLink(graph: Matrix, dist: Matrix, hop: Matrix, i: int, j: int)
    requires IsSquare(graph) && Table(graph, dist, hop)
    requires 0 <= i < |graph| && 0 <= j < |graph| && i != j
    ensures dist[i][j] <= graph[i][j]
  {
    assert Explained(graph, dist, hop, i, j);
  }

  /**
   * Once stable, every route through a neighbour is exact: the distance
   * is the link to the next hop plus the next hop's own distance.
   */
  lemma StableRoutesExact(graph: Matrix, dist: Matrix, hop: Matrix, i: int, j: int)
    requires IsSquare(graph) && Table(graph, dist, hop) && Stable(graph, dist)
    requires 0 <= i < |graph| && 0 <= j < |graph| && i != j
    ensures hop[i][j] != -1 ==> 0 <= hop[i][j] < |graph| && graph[i][hop[i][j]] != INF
    ensures hop[i][j] == j ==> dist[i][j] == graph[i][j]
    ensures hop[i][j] != -1 && hop[i][j] != j ==> dist[i][j] == graph[i][hop[i][j]] + dist[hop[i][j]][j]
    ensures hop[i][j] == -1 ==> dist[i][j] == INF
  {
    assert Explained(graph, dist, hop, i, j);
    assert StableAt(graph, dist, i, j);
  }

  /**
   * Once stable, the distance from i to j is at most the cost of any path
   * from i to j.
   */
  lemma {:induction false} StableIsShortest(graph: Matrix, dist: Matrix, hop: Matrix, p: seq<int>)
    requires IsSquare(graph) && NonNegative(graph) && Table(graph, dist, hop) && Stable(graph, dist)
    requires IsPath(graph, p) && p[0] != p[|p| - 1]
    ensures dist[p[0]][p[|p| - 1]] <= PathCost(graph, p)
    decreases |p|
  {
    var i, j := p[0], p[|p| - 1];
    var rest := p[1..];
    assert |p| >= 2;
    assert IsPath(graph, rest);
    AtMostDirectLink(graph, dist, hop, i, j);
    if p[1] == j {
      PathCostNonNegative(graph, rest);
    } else {
      StableIsShortest(graph, dist, hop, rest);
      assert StableAt(graph, dist, i, j);
    }
  }

  /**
   * Once stable, a finite distance is the least cost of a path: some path
   * from i to j costs exactly `dist[i][j]` (and, by `StableIsShortest`, none
   * costs less).
   */
  lemma StableIsLeastCost(graph: Matrix, dist: Matrix, hop: Matrix, i: int, j: int)
    requires IsSquare(graph) && NonNegative(graph) && Table(graph, dist, hop) && Stable(graph, dist)
    requires Witnessed(graph, dist)
    requires 0 <= i < |graph| && 0 <= j < |graph| && i != j && dist[i][j] < INF
    ensures exists p :: IsPath(graph, p) && p[0] == i && p[|p| - 1] == j && PathCost(graph, p) == dist[i][j]
  {
    var p :| IsPath(graph, p) && p[0] == i && p[|p| - 1] == j && PathCost(graph, p) <= dist[i][j];
    StableIsShortest(graph, dist, hop, p);
  }

  // ----------------------------------------------------------------------
  // simulateDVR

  /** The loops that set up `nextHop`: -1 on the diagonal, j over a direct link. */
  method InitNextHop(graph: Matrix, nextHop: array2<int>)
    requires IsSquare(graph) && nextHop.Length0 == |graph| && nextHop.Length1 == |graph|
    requires forall i, j :: 0 <= i < |graph| && 0 <= j < |graph| ==> nextHop[i, j] == -1
    modifies nextHop
    ensures Rows(nextHop) == InitialHops(graph)
  {
    var n := |graph|;
    ghost var hops := InitialHops(graph);
    var i := 0;
    while i < n
      invariant 0 <= i <= n
      invariant forall a, b :: 0 <= a < n && 0 <= b < n ==>
        nextHop[a, b] == if a < i then hops[a][b] else -1
    {
      var j := 0;
      while j < n
        invariant 0 <= j <= n
        invariant forall a, b :: 0 <= a < n && 0 <= b < n ==>
          nextHop[a, b] == if a < i || (a == i && b < j) then hops[a][b] else -1
      {
        if i == j {
          nextHop[i, j] := -1;
        } else if graph[i][j] != INF {
          nextHop[i, j] := j;
        }
        j := j + 1;
      }
      i := i + 1;
    }
    SameRows(nextHop, hops);
  }

  /** An array holds the matrix it agrees with entry by entry. */
  lemma SameRows(a: array2<int>, m: Matrix)
    requires |m| == a.Length0 && forall r :: 0 <= r < |m| ==> |m[r]| == a.Length1
    requires forall r, c :: 0 <= r < a.Length0 && 0 <= c < a.Length1 ==> a[r, c] == m[r][c]
    ensures Rows(a) == m
  {
    var rows := Rows(a);
    forall r | 0 <= r < |m| ensures rows[r] == m[r] {
      assert |rows[r]| == |m[r]|;
    }
  }

  /**
   * The loop over the neighbours k of i for the destination j: after it,
   * no neighbour offers a shorter way from i to j.
   */
  method RelaxEntry(graph: Matrix, dist: array2<int>, nextHop: array2<int>, i: int, j: int) returns (changed: bool)
    requires IsSquare(graph) && NonNegative(graph) && dist != nextHop
    requires dist.Length0 == dist.Length1 == nextHop.Length0 == nextHop.Length1 == |graph|
    requires 0 <= i < |graph| && 0 <= j < |graph| && i != j
    requires Table(graph, Rows(dist), Rows(nextHop)) && Witnessed(graph, Rows(dist))
    modifies dist, nextHop
    ensures Table(graph, Rows(dist), Rows(nextHop)) && Witnessed(graph, Rows(dist))
    ensures StableAt(graph, Rows(dist), i, j)
    ensures changed ==> Cost(Rows(dist)) < old(Cost(Rows(dist)))
    ensures !changed ==> Rows(dist) == old(Rows(dist)) && Rows(nextHop) == old(Rows(nextHop))
  {
    var n := |graph|;
    ghost var D0, H0 := Rows(dist), Rows(nextHop);
    ghost var D, H := D0, H0;
    changed := false;
    var k := 0;
    while k < n
      invariant 0 <= k <= n
      invariant Rows(dist) == D && Rows(nextHop) == H
      invariant Table(graph, D, H) && Witnessed(graph, D)
      invariant StableBelow(graph, D, i, j, k)
      invariant changed ==> Cost(D) < Cost(D0)
      invariant !changed ==> D == D0 && H == H0
    {
      if i == k || j == k || graph[i][k] == INF {
        StableBelowSkip(graph, D, i, j, k);
        k := k + 1;
        continue;
      }
      assert dist[i, j] == D[i][j] && dist[k, j] == D[k][j];
      if dist[i, j] > graph[i][k] + dist[k, j] {
        var d := graph[i][k] + dist[k, j];
        UpdateKeepsTable(graph, D, H, i, j, k, d);
        UpdateKeepsWitnessed(graph, D, i, j, k, d);
        Improve(dist, nextHop, i, j, d, k);
        StableBelowUpdate(graph, D, i, j, k, d);
        D, H := D[i := D[i][j := d]], H[i := H[i][j := k]];
        changed := true;
      } else {
        StableBelowSkip(graph, D, i, j, k);
      }
      k := k + 1;
    }
  }

  /** A neighbour that offers no shorter way extends the stable range. */
  lemma StableBelowSkip(graph: Matrix, dist: Matrix, i: nat, j: nat, k: nat)
    requires IsSquare(graph) && IsSquareOf(dist, |graph|)
    requires i < |graph| && j < |graph| && k < |graph| && StableBelow(graph, dist, i, j, k)
    requires k == i || k == j || graph[i][k] == INF || dist[i][j] <= graph[i][k] + dist[k][j]
    ensures StableBelow(graph, dist, i, j, k + 1)
  {
  }

  /** Taking the way through neighbour k extends the stable range past k. */
  lemma StableBelowUpdate(graph: Matrix, dist: Matrix, i: nat, j: nat, k: nat, d: int)
    requires IsSquare(graph) && IsSquareOf(dist, |graph|)
    requires i < |graph| && j < |graph| && k < |graph| && i != j && k != i && k != j
    requires StableBelow(graph, dist, i, j, k)
    requires graph[i][k] != INF && d == graph[i][k] + dist[k][j] && d < dist[i][j]
    ensures StableBelow(graph, dist[i := dist[i][j := d]], i, j, k + 1)
  {
    var dist' := dist[i := dist[i][j := d]];
    forall c | 0 <= c < k + 1 && c != i && c != j && graph[i][c] != INF
      ensures dist'[i][j] <= graph[i][c] + dist'[c][j]
    {
      assert dist'[c] == dist[c];
    }
  }

  /** `a[i][j] = v`, seen on the contents of the array. */
  method Store(a: array2<int>, i: nat, j: nat, v: int)
    requires i < a.Length0 && j < a.Length1
    modifies a
    ensures Rows(a) == old(Rows(a))[i := old(Rows(a))[i][j := v]]
  {
    ghost var before := Rows(a);
    a[i, j] := v;
    SameRows(a, before[i := before[i][j := v]]);
  }

  /** The update of `dist[i][j]` and `nextHop[i][j]` together. */
  method Improve(dist: array2<int>, nextHop: array2<int>, i: nat, j: nat, d: int, k: int)
    requires dist != nextHop && i < dist.Length0 && j < dist.Length1 && i < nextHop.Length0 && j < nextHop.Length1
    modifies dist, nextHop
    ensures Rows(dist) == old(Rows(dist))[i := old(Rows(dist))[i][j := d]]
    ensures Rows(nextHop) == old(Rows(nextHop))[i := old(Rows(nextHop))[i][j := k]]
  {
    Store(dist, i, j, d);
    Store(nextHop, i, j, k);
  }

  /** The sources before i, and the destinations before j of source i, are stable. */
  predicate StablePrefix(graph: Matrix, dist: Matrix, i: int, j: int)
    requires IsSquare(graph) && IsSquareOf(dist, |graph|)
  {
    forall a, b :: 0 <= a < |graph| && 0 <= b < |graph| && a != b && (a < i || (a == i && b < j)) ==>
      StableAt(graph, dist, a, b)
  }

  lemma StablePrefixStep(graph: Matrix, dist: Matrix, i: nat, j: nat)
    requires IsSquare(graph) && IsSquareOf(dist, |graph|) && i < |graph| && j < |graph|
    requires StablePrefix(graph, dist, i, j) && (i == j || StableAt(graph, dist, i, j))
    ensures StablePrefix(graph, dist, i, j + 1)
  {
  }

  lemma StablePrefixRow(graph: Matrix, dist: Matrix, i: nat)
    requires IsSquare(graph) && IsSquareOf(dist, |graph|) && StablePrefix(graph, dist, i, |graph|)
    ensures StablePrefix(graph, dist, i + 1, 0)
  {
  }

  /** One pass of the `do … while (updated)` loop over every source i and destination j. */
  method RelaxRound(graph: Matrix, dist: array2<int>, nextHop: array2<int>) returns (updated: bool)
    requires IsSquare(graph) && NonNegative(graph) && dist != nextHop
    requires dist.Length0 == dist.Length1 == nextHop.Length0 == nextHop.Length1 == |graph|
    requires Table(graph, Rows(dist), Rows(nextHop)) && Witnessed(graph, Rows(dist))
    modifies dist, nextHop
    ensures Table(graph, Rows(dist), Rows(nextHop)) && Witnessed(graph, Rows(dist))
    ensures updated ==> Cost(Rows(dist)) < old(Cost(Rows(dist)))
    ensures !updated ==> Rows(dist) == old(Rows(dist)) && Stable(graph, Rows(dist))
  {
    var n := |graph|;
    ghost var D0 := Rows(dist);
    updated := false;
    var i := 0;
    while i < n
      invariant 0 <= i <= n
      invariant Table(graph, Rows(dist), Rows(nextHop)) && Witnessed(graph, Rows(dist))
      invariant updated ==> Cost(Rows(dist)) < Cost(D0)
      invariant !updated ==> Rows(dist) == D0 && StablePrefix(graph, D0, i, 0)
    {
      var j := 0;
      while j < n
        invariant 0 <= j <= n
        invariant Table(graph, Rows(dist), Rows(nextHop)) && Witnessed(graph, Rows(dist))
        invariant updated ==> Cost(Rows(dist)) < Cost(D0)
        invariant !updated ==> Rows(dist) == D0 && StablePrefix(graph, D0, i, j)
      {
        if i == j {
          if !updated {
            StablePrefixStep(graph, D0, i, j);
          }
          j := j + 1;
          continue;
        }
        var changed := RelaxEntry(graph, dist, nextHop, i, j);
        if changed {
          updated := true;
        } else if !updated {
          StablePrefixStep(graph, D0, i, j);
        }
        j := j + 1;
      }
      if !updated {
        StablePrefixRow(graph, D0, i);
      }
      i := i + 1;
    }
  }

  /**
   * `simulateDVR`, for non-negative link costs: the final tables satisfy
   * the invariant, every finite distance is backed by a path, and no
   * neighbour offers any node a shorter way. `StableIsShortest` and
   * `StableIsLeastCost` turn this into: each finite distance is the least
   * cost of a path.
   */
  method SimulateDVR(graph: Matrix) returns (dist: array2<int>, nextHop: array2<int>)
    requires IsSquare(graph) && NonNegative(graph)
    ensures dist.Length0 == dist.Length1 == nextHop.Length0 == nextHop.Length1 == |graph|
    ensures Table(graph, Rows(dist), Rows(nextHop)) && Witnessed(graph, Rows(dist))
    ensures Stable(graph, Rows(dist))
  {
    var n := |graph|;
    dist := new int[n, n]((i, j) requires 0 <= i < n && 0 <= j < n => graph[i][j]);
    nextHop := new int[n, n]((i, j) => -1);
    SameRows(dist, graph);
    InitNextHop(graph, nextHop);
    InitialTable(graph);
    InitialWitnessed(graph);
    TableCostNonNegative(graph, graph, InitialHops(graph));
    var updated := true;
    while updated
      invariant Table(graph, Rows(dist), Rows(nextHop)) && Witnessed(graph, Rows(dist))
      invariant Cost(Rows(dist)) >= 0
      invariant !updated ==> Stable(graph, Rows(dist))
      decreases Cost(Rows(dist)), updated
    {
      updated := RelaxRound(graph, dist, nextHop);
      TableCostNonNegative(graph, Rows(dist), Rows(nextHop));
    }
  }
}
