/**
 * `simulateLSR` and `printLSRTable` of A4/routing_sim.cpp: Dijkstra's
 * algorithm from every source over the `dist`, `prev` and `visited`
 * vectors, then the next hop to each destination found by walking `prev`
 * back towards the source.
 */
module LinkState {
  import opened Graph

  /** One line of a printed table: destination, cost, and next hop (-1 for none). */
  datatype Route = Route(dest: int, cost: int, nextHop: int)

  // ----------------------------------------------------------------------
  // The shortest-path tree that `prev` records

  /** Every `prev` entry is -1 or a node, and `rank` strictly grows along `prev`: the links lead back without a cycle. */
  predicate Ranked(prev: seq<int>, rank: seq<nat>) {
    && |rank| == |prev|
    && forall v :: 0 <= v < |prev| ==> -1 <= prev[v] < |prev| && (prev[v] != -1 ==> rank[prev[v]] < rank[v])
  }

  /** The link from `prev[v]` to v: a real link, from a reachable node, whose cost makes up `dist[v]`. */
  predicate TreeEdge(graph: Matrix, dist: seq<int>, prev: seq<int>, v: int)
    requires IsSquare(graph) && |dist| == |graph| && |prev| == |graph|
    requires 0 <= v < |graph| && 0 <= prev[v] < |graph|
  {
    var u := prev[v];
    u != v && graph[u][v] != INF && dist[u] < INF && dist[v] == dist[u] + graph[u][v]
  }

  /**
   * What Dijkstra's loop leaves in `dist` and `prev`: the source at cost
   * 0 without a predecessor, INF exactly at the other nodes without one,
   * and every predecessor a tree link.
   */
  predicate Tree(graph: Matrix, src: int, dist: seq<int>, prev: seq<int>, rank: seq<nat>)
    requires IsSquare(graph)
  {
    && |dist| == |graph| && |prev| == |graph| && 0 <= src < |graph|
    && Ranked(prev, rank)
    && dist[src] == 0 && prev[src] == -1
    && (forall v :: 0 <= v < |graph| ==> dist[v] <= INF)
    && (forall v :: 0 <= v < |graph| && v != src ==> (prev[v] == -1 <==> dist[v] == INF))
    && (forall v :: 0 <= v < |graph| && prev[v] != -1 ==> TreeEdge(graph, dist, prev, v))
  }

  /** The nodes met walking `prev` back from v, in path order. */
  ghost function TreePath(prev: seq<int>, rank: seq<nat>, v: int): (p: seq<int>)
    requires Ranked(prev, rank) && 0 <= v < |prev|
    ensures |p| >= 1 && p[|p| - 1] == v
    decreases rank[v]
  {
    if prev[v] == -1 then [v] else TreePath(prev, rank, prev[v]) + [v]
  }

  /** The walk back from a reachable node is a path from the source that costs `dist[v]`. */
  lemma {:induction false} TreePathCost(graph: Matrix, src: int, dist: seq<int>, prev: seq<int>, rank: seq<nat>, v: int)
    requires IsSquare(graph) && Tree(graph, src, dist, prev, rank) && 0 <= v < |graph| && dist[v] < INF
    ensures IsPath(graph, TreePath(prev, rank, v))
    ensures TreePath(prev, rank, v)[0] == src
    ensures PathCost(graph, TreePath(prev, rank, v)) == dist[v]
    decreases rank[v]
  {
    if v != src {
      var u := prev[v];
      assert TreeEdge(graph, dist, prev, v);
      TreePathCost(graph, src, dist, prev, rank, u);
      var q := TreePath(prev, rank, u);
      assert TreePath(prev, rank, v) == q + [v];
      assert IsPath(graph, q + [v]) by {
        forall k | 0 <= k < |q + [v]| - 1
          ensures (q + [v])[k] != (q + [v])[k + 1] && graph[(q + [v])[k]][(q + [v])[k + 1]] != INF
        {
          if k < |q| - 1 {
            assert (q + [v])[k] == q[k] && (q + [v])[k + 1] == q[k + 1];
          }
        }
      }
      PathCostOfExtension(graph, q, v);
    }
  }

  /** `dist` admits no shortcut: no link leads to a node more cheaply than its own distance. */
  predicate Relaxed(graph: Matrix, dist: seq<int>)
    requires IsSquare(graph) && |dist| == |graph|
  {
    forall a, b :: 0 <= a < |graph| && 0 <= b < |graph| && a != b && graph[a][b] != INF ==>
      dist[b] <= dist[a] + graph[a][b]
  }

  /** Distances with no shortcut are at most the cost of every path from the source. */
  lemma {:induction false} RelaxedIsShortest(graph: Matrix, src: int, dist: seq<int>, p: seq<int>)
    requires IsSquare(graph) && |dist| == |graph| && 0 <= src < |graph| && dist[src] == 0
    requires Relaxed(graph, dist) && IsPath(graph, p) && p[0] == src
    ensures dist[p[|p| - 1]] <= PathCost(graph, p)
    decreases |p|
  {
    if |p| > 1 {
      var q := p[..|p| - 1];
      var v := p[|p| - 1];
      assert p == q + [v];
      assert IsPath(graph, q) by {
        forall k | 0 <= k < |q| - 1 ensures q[k] != q[k + 1] && graph[q[k]][q[k + 1]] != INF {
          assert q[k] == p[k] && q[k + 1] == p[k + 1];
        }
      }
      RelaxedIsShortest(graph, src, dist, q);
      PathCostOfExtension(graph, q, v);
      assert q[|q| - 1] == p[|p| - 2];
    }
  }

  // ----------------------------------------------------------------------
  // The next-hop walk of printLSRTable

  /** Where the walk back from v stops: at the first node whose predecessor is the source or -1. */
  ghost function Stop(prev: seq<int>, src: int, rank: seq<nat>, v: int): (w: int)
    requires Ranked(prev, rank) && 0 <= v < |prev|
    ensures 0 <= w < |prev|
    decreases rank[v]
  {
    if prev[v] == src || prev[v] == -1 then v else Stop(prev, src, rank, prev[v])
  }

  /**
   * From a reachable node other than the source, the walk stops at the
   * second node of the path back from the source: the neighbour of the
   * source the route leaves by.
   */
  lemma {:induction false} StopIsFirstHop(graph: Matrix, src: int, dist: seq<int>, prev: seq<int>, rank: seq<nat>, v: int)
    requires IsSquare(graph) && Tree(graph, src, dist, prev, rank) && 0 <= v < |graph| && v != src && dist[v] < INF
    ensures prev[Stop(prev, src, rank, v)] == src
    ensures |TreePath(prev, rank, v)| >= 2 && TreePath(prev, rank, v)[1] == Stop(prev, src, rank, v)
    decreases rank[v]
  {
    var u := prev[v];
    assert TreeEdge(graph, dist, prev, v);
    if u == src {
      assert TreePath(prev, rank, src) == [src];
    } else {
      StopIsFirstHop(graph, src, dist, prev, rank, u);
    }
  }

  /** An unreachable node's walk stops where it starts, with no predecessor. */
  lemma StopOfUnreachable(graph: Matrix, src: int, dist: seq<int>, prev: seq<int>, rank: seq<nat>, v: int)
    requires IsSquare(graph) && Tree(graph, src, dist, prev, rank) && 0 <= v < |graph| && v != src && dist[v] == INF
    ensures Stop(prev, src, rank, v) == v && prev[v] == -1
  {
  }

  /**
   * The `while (prev[hop] != src && prev[hop] != -1)` walk: -1 exactly
   * for an unreachable destination, otherwise the neighbour of the source
   * on the tree path, whose predecessor is the source.
   */
  method NextHop(ghost graph: Matrix, src: int, ghost dist: seq<int>, prev: seq<int>, ghost rank: seq<nat>, i: int)
    returns (hop: int)
    requires IsSquare(graph) && Tree(graph, src, dist, prev, rank) && 0 <= i < |graph| && i != src
    ensures hop == -1 <==> dist[i] == INF
    ensures hop != -1 ==> 0 <= hop < |graph| && prev[hop] == src
    ensures hop != -1 ==> |TreePath(prev, rank, i)| >= 2 && TreePath(prev, rank, i)[1] == hop
  {
    var h := i;
    while prev[h] != src && prev[h] != -1
      invariant 0 <= h < |prev| && Stop(prev, src, rank, h) == Stop(prev, src, rank, i)
      decreases rank[h]
    {
      h := prev[h];
    }
    hop := if prev[h] == -1 then -1 else h;
    if dist[i] < INF {
      StopIsFirstHop(graph, src, dist, prev, rank, i);
    } else {
      StopOfUnreachable(graph, src, dist, prev, rank, i);
    }
  }

  /**
   * The routes a destination row promises, stated on the graph alone: -1
   * as next hop exactly at cost INF; otherwise a path from the source that
   * leaves by the next hop and costs what the row says; and, when no link
   * cost is negative, no path to the destination cheaper than the row.
   */
  ghost predicate RouteOk(graph: Matrix, src: int, r: Route)
    requires IsSquare(graph)
  {
    && 0 <= r.dest < |graph| && r.dest != src
    && (r.nextHop == -1 <==> r.cost == INF)
    && (r.cost != INF ==> exists p :: IsPath(graph, p) && |p| >= 2 && p[0] == src && p[|p| - 1] == r.dest
                                      && p[1] == r.nextHop && PathCost(graph, p) == r.cost)
    && (NonNegative(graph) ==> forall p :: IsPath(graph, p) && p[0] == src && p[|p| - 1] == r.dest ==>
                                 r.cost <= PathCost(graph, p))
  }

  /** The row for destination v meets `RouteOk`. */
  lemma RouteOfTree(graph: Matrix, src: int, dist: seq<int>, prev: seq<int>, rank: seq<nat>, r: Route)
    requires IsSquare(graph) && Tree(graph, src, dist, prev, rank)
    requires NonNegative(graph) ==> Relaxed(graph, dist)
    requires 0 <= r.dest < |graph| && r.dest != src && r.cost == dist[r.dest]
    requires r.nextHop == -1 <==> dist[r.dest] == INF
    requires r.nextHop != -1 ==> |TreePath(prev, rank, r.dest)| >= 2 && TreePath(prev, rank, r.dest)[1] == r.nextHop
    ensures RouteOk(graph, src, r)
  {
    if r.cost != INF {
      TreePathCost(graph, src, dist, prev, rank, r.dest);
      var p := TreePath(prev, rank, r.dest);
      assert IsPath(graph, p) && |p| >= 2 && p[0] == src && p[|p| - 1] == r.dest
        && p[1] == r.nextHop && PathCost(graph, p) == r.cost;
    }
    if NonNegative(graph) {
      forall p | IsPath(graph, p) && p[0] == src && p[|p| - 1] == r.dest
        ensures r.cost <= PathCost(graph, p)
      {
        RelaxedIsShortest(graph, src, dist, p);
      }
    }
  }

  /** `printLSRTable` without the printing: a row for every destination but the source, in order. */
  method LsrTable(ghost graph: Matrix, src: int, dist: seq<int>, prev: seq<int>, ghost rank: seq<nat>)
    returns (routes: seq<Route>)
    requires IsSquare(graph) && Tree(graph, src, dist, prev, rank)
    requires NonNegative(graph) ==> Relaxed(graph, dist)
    ensures |routes| == |graph| - 1
    ensures forall k :: 0 <= k < |routes| ==> routes[k].dest == (if k < src then k else k + 1)
    ensures forall k :: 0 <= k < |routes| ==> routes[k].cost == dist[routes[k].dest] && RouteOk(graph, src, routes[k])
  {
    routes := [];
    var i := 0;
    while i < |dist|
      invariant 0 <= i <= |dist|
      invariant |routes| == (if i <= src then i else i - 1)
      invariant forall k :: 0 <= k < |routes| ==> routes[k].dest == (if k < src then k else k + 1)
      invariant forall k :: 0 <= k < |routes| ==> routes[k].cost == dist[routes[k].dest] && RouteOk(graph, src, routes[k])
    {
      if i == src {
        i := i + 1;
        continue;
      }
      var hop := NextHop(graph, src, dist, prev, rank, i);
      var r := Route(i, dist[i], hop);
      RouteOfTree(graph, src, dist, prev, rank, r);
      routes := routes + [r];
      i := i + 1;
    }
  }

  // ----------------------------------------------------------------------
  // Dijkstra's loop

  /** The nodes 0 to n - 1. */
  function Nodes(n: nat): (s: set<int>)
    ensures forall v :: v in s <==> 0 <= v < n
    ensures |s| == n
  {
    if n == 0 then {} else Nodes(n - 1) + {n - 1}
  }

  /** A set of n of the nodes 0 to n - 1 holds them all. */
  lemma AllNodes(s: set<int>, n: nat)
    requires s <= Nodes(n) && |s| == n
    ensures s == Nodes(n)
  {
    var rest := Nodes(n) - s;
    assert Nodes(n) == s + rest;
    assert s * rest == {};
    assert |rest| == 0;
  }

  /**
   * u is what the selection loop picks: an unvisited node at a finite
   * distance that no unvisited node undercuts.
   */
  predicate Selected(dist: seq<int>, visited: seq<bool>, u: int)
    requires |visited| == |dist|
  {
    && 0 <= u < |dist| && !visited[u] && dist[u] < INF
    && forall v :: 0 <= v < |dist| && !visited[v] ==> dist[u] <= dist[v]
  }

  /**
   * The loop over `minDistance`: -1 exactly when every unvisited node is at
   * distance INF or more; otherwise the lowest-numbered unvisited node of
   * least distance.
   */
  method SelectMin(dist: array<int>, visited: array<bool>) returns (u: int)
    requires visited.Length == dist.Length
    ensures u == -1 <==> forall v :: 0 <= v < dist.Length && !visited[v] ==> dist[v] >= INF
    ensures u != -1 ==> Selected(dist[..], visited[..], u)
    ensures u != -1 ==> forall v :: 0 <= v < u && !visited[v] ==> dist[u] < dist[v]
  {
    u := -1;
    var minDistance := INF;
    var v := 0;
    while v < dist.Length
      invariant 0 <= v <= dist.Length
      invariant u == -1 ==> minDistance == INF && forall w :: 0 <= w < v && !visited[w] ==> dist[w] >= INF
      invariant u != -1 ==> 0 <= u < v && !visited[u] && minDistance == dist[u] < INF
      invariant u != -1 ==> forall w :: 0 <= w < v && !visited[w] ==> dist[u] <= dist[w]
      invariant u != -1 ==> forall w :: 0 <= w < u && !visited[w] ==> dist[u] < dist[w]
    {
      if !visited[v] && dist[v] < minDistance {
        minDistance := dist[v];
        u := v;
      }
      v := v + 1;
    }
  }

  /** Relaxing v from the newly visited u improves it. */
  predicate Improves(graph: Matrix, dist: seq<int>, visited: seq<bool>, u: int, v: int)
    requires IsSquare(graph) && |dist| == |graph| && |visited| == |graph|
    requires 0 <= u < |graph| && 0 <= v < |graph|
  {
    !visited[v] && graph[u][v] != INF && dist[u] + graph[u][v] < dist[v]
  }

  /** The distances after relaxing the links out of u. */
  function RelaxedDist(graph: Matrix, dist: seq<int>, visited: seq<bool>, u: int): (r: seq<int>)
    requires IsSquare(graph) && |dist| == |graph| && |visited| == |graph| && 0 <= u < |graph|
    ensures |r| == |graph|
  {
    seq(|graph|, v requires 0 <= v < |graph| =>
      if Improves(graph, dist, visited, u, v) then dist[u] + graph[u][v] else dist[v])
  }

  /** The predecessors after relaxing the links out of u. */
  function RelaxedPrev(graph: Matrix, dist: seq<int>, prev: seq<int>, visited: seq<bool>, u: int): (r: seq<int>)
    requires IsSquare(graph) && |dist| == |graph| && |prev| == |graph| && |visited| == |graph| && 0 <= u < |graph|
    ensures |r| == |graph|
  {
    seq(|graph|, v requires 0 <= v < |graph| =>
      if Improves(graph, dist, visited, u, v) then u else prev[v])
  }

  /**
   * Relaxing only lowers distances, and only of unvisited nodes reached
   * by a link from u, whose predecessor becomes u.
   */
  lemma RelaxOnlyLowers(graph: Matrix, dist: seq<int>, prev: seq<int>, visited: seq<bool>, u: int, v: int)
    requires IsSquare(graph) && |dist| == |graph| && |prev| == |graph| && |visited| == |graph|
    requires 0 <= u < |graph| && 0 <= v < |graph|
    ensures RelaxedDist(graph, dist, visited, u)[v] <= dist[v]
    ensures RelaxedDist(graph, dist, visited, u)[v] != dist[v] ==>
      !visited[v] && graph[u][v] != INF && RelaxedPrev(graph, dist, prev, visited, u)[v] == u
    ensures RelaxedDist(graph, dist, visited, u)[v] == dist[v] ==> RelaxedPrev(graph, dist, prev, visited, u)[v] == prev[v]
  {
  }

  /** The loop over the neighbours v of the visited node u. */
  method Relax(graph: Matrix, dist: array<int>, prev: array<int>, visited: array<bool>, u: int)
    requires IsSquare(graph) && dist != prev
    requires dist.Length == prev.Length == visited.Length == |graph| && 0 <= u < |graph| && visited[u]
    modifies dist, prev
    ensures dist[..] == RelaxedDist(graph, old(dist[..]), visited[..], u)
    ensures prev[..] == RelaxedPrev(graph, old(dist[..]), old(prev[..]), visited[..], u)
  {
    ghost var D, P := dist[..], prev[..];
    var v := 0;
    while v < |graph|
      invariant 0 <= v <= |graph| && dist[u] == D[u]
      invariant forall w :: 0 <= w < |graph| ==> dist[w] == (if w < v then RelaxedDist(graph, D, visited[..], u)[w] else D[w])
      invariant forall w :: 0 <= w < |graph| ==> prev[w] == (if w < v then RelaxedPrev(graph, D, P, visited[..], u)[w] else P[w])
    {
      if !visited[v] && graph[u][v] != INF && dist[u] + graph[u][v] < dist[v] {
        dist[v] := dist[u] + graph[u][v];
        prev[v] := u;
      }
      v := v + 1;
    }
    assert dist[..] == RelaxedDist(graph, D, visited[..], u);
    assert prev[..] == RelaxedPrev(graph, D, P, visited[..], u);
  }

  /** Every link out of a visited node offers no shortcut. */
  predicate FromVisited(graph: Matrix, dist: seq<int>, visited: seq<bool>)
    requires IsSquare(graph) && |dist| == |graph| && |visited| == |graph|
  {
    forall a, b :: 0 <= a < |graph| && 0 <= b < |graph| && visited[a] && a != b && graph[a][b] != INF ==>
      dist[b] <= dist[a] + graph[a][b]
  }

  /** Visited nodes are no farther than unvisited ones. */
  predicate Ordered(dist: seq<int>, visited: seq<bool>)
    requires |visited| == |dist|
  {
    forall a, b :: 0 <= a < |dist| && 0 <= b < |dist| && visited[a] && !visited[b] ==> dist[a] <= dist[b]
  }

  /**
   * The bookkeeping of the `count` loop over n nodes: the `count` visited
   * nodes are `seen`, ranked 0 to count - 1 in visiting order, the others
   * ranked n; the source is visited first.
   */
  ghost predicate Marks(n: nat, src: int, visited: seq<bool>, rank: seq<nat>, seen: set<int>, count: nat) {
    && |visited| == n && |rank| == n && count <= n
    && seen <= Nodes(n) && |seen| == count
    && (forall v :: 0 <= v < n ==> (visited[v] <==> v in seen) && (visited[v] <==> rank[v] < count))
    && (forall v :: 0 <= v < n && !visited[v] ==> rank[v] == n)
    && (count > 0 ==> 0 <= src < n && visited[src])
  }

  /** The invariant of the `count` loop, after `count` nodes were visited. */
  ghost predicate Inv(graph: Matrix, src: int, dist: seq<int>, prev: seq<int>, visited: seq<bool>,
                      rank: seq<nat>, seen: set<int>, count: nat)
    requires IsSquare(graph)
  {
    && Tree(graph, src, dist, prev, rank)
    && Marks(|graph|, src, visited, rank, seen, count)
    && (forall v :: 0 <= v < |graph| && prev[v] != -1 ==> visited[prev[v]])
    && (count == 0 ==> forall v :: 0 <= v < |graph| && v != src ==> dist[v] == INF)
    && (NonNegative(graph) ==> Ordered(dist, visited) && FromVisited(graph, dist, visited))
  }

  /** The vectors as `simulateLSR` sets them up for source `src`. */
  lemma InitialInv(graph: Matrix, src: int)
    requires IsSquare(graph) && 0 <= src < |graph|
    ensures var n := |graph|;
      Inv(graph, src, seq(n, v => if v == src then 0 else INF), seq(n, v => -1), seq(n, v => false),
          seq(n, v => n), {}, 0)
  {
  }

  /** Visiting the selected node and relaxing its links keeps the invariant. */
  lemma VisitKeepsInv(graph: Matrix, src: int, dist: seq<int>, prev: seq<int>, visited: seq<bool>,
                      rank: seq<nat>, seen: set<int>, count: nat, u: int)
    requires IsSquare(graph) && Inv(graph, src, dist, prev, visited, rank, seen, count)
    requires count < |graph| && Selected(dist, visited, u)
    ensures var visited' := visited[u := true];
      Inv(graph, src, RelaxedDist(graph, dist, visited', u), RelaxedPrev(graph, dist, prev, visited', u),
          visited', rank[u := count], seen + {u}, count + 1)
  {
    if count == 0 {
      assert u == src;
    }
    TreeAfterVisit(graph, src, dist, prev, visited, rank, seen, count, u);
    MarksAfterVisit(|graph|, src, visited, rank, seen, count, u);
    PrevAfterVisit(graph, src, dist, prev, visited, rank, seen, count, u);
    if NonNegative(graph) {
      OrderAfterVisit(graph, src, dist, prev, visited, rank, seen, count, u);
    }
  }

  /** Visiting u records one more visit. */
  lemma MarksAfterVisit(n: nat, src: int, visited: seq<bool>, rank: seq<nat>, seen: set<int>, count: nat, u: int)
    requires Marks(n, src, visited, rank, seen, count)
    requires count < n && 0 <= u < n && !visited[u] && (count == 0 ==> u == src)
    ensures Marks(n, src, visited[u := true], rank[u := count], seen + {u}, count + 1)
  {
    assert u !in seen;
  }

  /** A predecessor is a visited node: u itself, or one set before. */
  lemma PrevAfterVisit(graph: Matrix, src: int, dist: seq<int>, prev: seq<int>, visited: seq<bool>,
                       rank: seq<nat>, seen: set<int>, count: nat, u: int)
    requires IsSquare(graph) && Inv(graph, src, dist, prev, visited, rank, seen, count)
    requires count < |graph| && Selected(dist, visited, u)
    ensures var visited' := visited[u := true];
      var prev' := RelaxedPrev(graph, dist, prev, visited', u);
      forall v :: 0 <= v < |graph| && prev'[v] != -1 ==> visited'[prev'[v]]
  {
  }

  lemma TreeAfterVisit(graph: Matrix, src: int, dist: seq<int>, prev: seq<int>, visited: seq<bool>,
                       rank: seq<nat>, seen: set<int>, count: nat, u: int)
    requires IsSquare(graph) && Inv(graph, src, dist, prev, visited, rank, seen, count)
    requires count < |graph| && Selected(dist, visited, u) && (count == 0 ==> u == src)
    ensures var visited' := visited[u := true];
      Tree(graph, src, RelaxedDist(graph, dist, visited', u), RelaxedPrev(graph, dist, prev, visited', u), rank[u := count])
  {
    var n := |graph|;
    var visited' := visited[u := true];
    var dist' := RelaxedDist(graph, dist, visited', u);
    var prev' := RelaxedPrev(graph, dist, prev, visited', u);
    assert dist'[u] == dist[u];
    EdgesAfterVisit(graph, dist, prev, visited, u);
    RanksAfterVisit(graph, dist, prev, visited, rank, count, u);
  }

  /** Every link of the relaxed tree is a tree link: the new ones from u, the others kept. */
  lemma EdgesAfterVisit(graph: Matrix, dist: seq<int>, prev: seq<int>, visited: seq<bool>, u: int)
    requires IsSquare(graph) && |dist| == |graph| && |prev| == |graph| && |visited| == |graph|
    requires forall v :: 0 <= v < |graph| ==> -1 <= prev[v] < |graph|
    requires forall v :: 0 <= v < |graph| && prev[v] != -1 ==> visited[prev[v]] && TreeEdge(graph, dist, prev, v)
    requires Selected(dist, visited, u)
    ensures var visited' := visited[u := true];
      var dist' := RelaxedDist(graph, dist, visited', u);
      var prev' := RelaxedPrev(graph, dist, prev, visited', u);
      forall v :: 0 <= v < |graph| && prev'[v] != -1 ==> 0 <= prev'[v] < |graph| && TreeEdge(graph, dist', prev', v)
  {
    var n := |graph|;
    var visited' := visited[u := true];
    var dist' := RelaxedDist(graph, dist, visited', u);
    var prev' := RelaxedPrev(graph, dist, prev, visited', u);
    assert dist'[u] == dist[u];
    forall v | 0 <= v < n && prev'[v] != -1 ensures 0 <= prev'[v] < n && TreeEdge(graph, dist', prev', v) {
      if Improves(graph, dist, visited', u, v) {
        assert prev'[v] == u;
      } else {
        assert prev'[v] == prev[v] && dist'[v] == dist[v];
        assert TreeEdge(graph, dist, prev, v);
        assert visited[prev[v]];
        assert dist'[prev[v]] == dist[prev[v]];
      }
    }
  }

  /** Ranks still grow along the relaxed tree: u takes rank `count`, above every visited node and below every unvisited one. */
  lemma RanksAfterVisit(graph: Matrix, dist: seq<int>, prev: seq<int>, visited: seq<bool>, rank: seq<nat>, count: nat, u: int)
    requires IsSquare(graph) && |dist| == |graph| && |prev| == |graph| && |visited| == |graph|
    requires Ranked(prev, rank) && 0 <= u < |graph| && !visited[u] && count < |graph|
    requires forall v :: 0 <= v < |graph| ==> (visited[v] <==> rank[v] < count)
    requires forall v :: 0 <= v < |graph| && !visited[v] ==> rank[v] == |graph|
    requires forall v :: 0 <= v < |graph| && prev[v] != -1 ==> visited[prev[v]]
    ensures Ranked(RelaxedPrev(graph, dist, prev, visited[u := true], u), rank[u := count])
  {
    var n := |graph|;
    var visited' := visited[u := true];
    var prev' := RelaxedPrev(graph, dist, prev, visited', u);
    var rank' := rank[u := count];
    forall v | 0 <= v < n && prev'[v] != -1 ensures rank'[prev'[v]] < rank'[v] {
      if Improves(graph, dist, visited', u, v) {
        assert rank[v] == n;
      } else {
        assert visited[prev[v]];
      }
    }
  }

  lemma OrderAfterVisit(graph: Matrix, src: int, dist: seq<int>, prev: seq<int>, visited: seq<bool>,
                        rank: seq<nat>, seen: set<int>, count: nat, u: int)
    requires IsSquare(graph) && NonNegative(graph) && Inv(graph, src, dist, prev, visited, rank, seen, count)
    requires count < |graph| && Selected(dist, visited, u)
    ensures var visited' := visited[u := true];
      var dist' := RelaxedDist(graph, dist, visited', u);
      Ordered(dist', visited') && FromVisited(graph, dist', visited')
  {
    var n := |graph|;
    var visited' := visited[u := true];
    var dist' := RelaxedDist(graph, dist, visited', u);
    forall a, b | 0 <= a < n && 0 <= b < n && visited'[a] && !visited'[b] ensures dist'[a] <= dist'[b] {
      assert dist'[a] == dist[a];
    }
    forall a, b | 0 <= a < n && 0 <= b < n && visited'[a] && a != b && graph[a][b] != INF
      ensures dist'[b] <= dist'[a] + graph[a][b]
    {
      assert dist'[a] == dist[a];
      if a != u && visited'[b] && b != u {
        assert dist'[b] == dist[b];
      }
    }
  }

  /** When the loop ends, every node was visited or is at distance INF, so no link offers a shortcut. */
  lemma FinalRelaxed(graph: Matrix, src: int, dist: seq<int>, prev: seq<int>, visited: seq<bool>,
                     rank: seq<nat>, seen: set<int>, count: nat)
    requires IsSquare(graph) && Inv(graph, src, dist, prev, visited, rank, seen, count)
    requires count == |graph| || forall v :: 0 <= v < |graph| && !visited[v] ==> dist[v] >= INF
    ensures NonNegative(graph) ==> Relaxed(graph, dist)
  {
    var n := |graph|;
    if count == n {
      AllNodes(seen, n);
    }
    if NonNegative(graph) {
      forall a, b | 0 <= a < n && 0 <= b < n && a != b && graph[a][b] != INF
        ensures dist[b] <= dist[a] + graph[a][b]
      {
        if !visited[a] {
          assert dist[a] == INF;
        }
      }
    }
  }

  /** The `dist`, `prev` and `visited` vectors before the loop, with `dist[src] = 0`. */
  method NewVectors(n: nat, src: int) returns (d: array<int>, p: array<int>, visited: array<bool>)
    requires 0 <= src < n
    ensures fresh(d) && fresh(p) && fresh(visited) && d != p
    ensures d[..] == seq(n, v => if v == src then 0 else INF)
    ensures p[..] == seq(n, v => -1) && visited[..] == seq(n, v => false)
  {
    d := new int[n](v => INF);
    p := new int[n](v => -1);
    visited := new bool[n](v => false);
    d[src] := 0;
    assert d[..] == seq(n, v => if v == src then 0 else INF);
    assert p[..] == seq(n, v => -1) && visited[..] == seq(n, v => false);
  }

  /**
   * Dijkstra's loop of `simulateLSR` for one source, on its three vectors:
   * the tree of shortest paths in `prev`, their costs in `dist`.
   */
  method ShortestPaths(graph: Matrix, src: int) returns (dist: seq<int>, prev: seq<int>, ghost rank: seq<nat>)
    requires IsSquare(graph) && 0 <= src < |graph|
    ensures Tree(graph, src, dist, prev, rank)
    ensures NonNegative(graph) ==> Relaxed(graph, dist)
  {
    var n := |graph|;
    var d, p, visited := NewVectors(n, src);
    rank := seq(n, v => n);
    ghost var seen: set<int> := {};
    InitialInv(graph, src);
    var count := 0;
    while count < n
      invariant 0 <= count <= n
      invariant Inv(graph, src, d[..], p[..], visited[..], rank, seen, count)
    {
      var u := SelectMin(d, visited);
      if u == -1 {
        break;
      }
      Visit(graph, src, d, p, visited, rank, seen, count, u);
      rank := rank[u := count];
      seen := seen + {u};
      count := count + 1;
    }
    FinalRelaxed(graph, src, d[..], p[..], visited[..], rank, seen, count);
    dist, prev := d[..], p[..];
  }

  /** Mark the selected node u visited and relax its links: the invariant holds for one more visit. */
  method Visit(graph: Matrix, src: int, d: array<int>, p: array<int>, visited: array<bool>,
               ghost rank: seq<nat>, ghost seen: set<int>, count: nat, u: int)
    requires IsSquare(graph) && count < |graph| && d.Length == |graph| && p.Length == |graph| && visited.Length == |graph|
    requires Inv(graph, src, d[..], p[..], visited[..], rank, seen, count) && Selected(d[..], visited[..], u)
    modifies d, p, visited
    ensures visited[..] == old(visited[..])[u := true]
    ensures d[..] == RelaxedDist(graph, old(d[..]), visited[..], u)
    ensures p[..] == RelaxedPrev(graph, old(d[..]), old(p[..]), visited[..], u)
    ensures Inv(graph, src, d[..], p[..], visited[..], rank[u := count], seen + {u}, count + 1)
  {
    ghost var D, P, V := d[..], p[..], visited[..];
    VisitKeepsInv(graph, src, D, P, V, rank, seen, count, u);
    visited[u] := true;
    assert visited[..] == V[u := true];
    Relax(graph, d, p, visited, u);
  }

  /**
   * `simulateLSR`: the table of every source, each row meeting `RouteOk`
   * and the destinations in order with the source left out.
   */
  method SimulateLSR(graph: Matrix) returns (tables: seq<seq<Route>>)
    requires IsSquare(graph)
    ensures |tables| == |graph|
    ensures forall s :: 0 <= s < |graph| ==> |tables[s]| == |graph| - 1
    ensures forall s, k :: 0 <= s < |graph| && 0 <= k < |tables[s]| ==>
      tables[s][k].dest == (if k < s then k else k + 1) && RouteOk(graph, s, tables[s][k])
  {
    tables := [];
    var src := 0;
    while src < |graph|
      invariant 0 <= src <= |graph| && |tables| == src
      invariant forall s :: 0 <= s < src ==> |tables[s]| == |graph| - 1
      invariant forall s, k :: 0 <= s < src && 0 <= k < |tables[s]| ==>
        tables[s][k].dest == (if k < s then k else k + 1) && RouteOk(graph, s, tables[s][k])
    {
      var dist, prev, rank := ShortestPaths(graph, src);
      var routes := LsrTable(graph, src, dist, prev, rank);
      tables := tables + [routes];
      src := src + 1;
    }
  }
}
