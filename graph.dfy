/**
 * The adjacency matrix of A4/routing_sim.cpp: `graph[i][j]` is the cost of
 * the link from node i to node j, and INF marks the absence of a link.
 */
module Graph {
  import opened Common

  /** The sentinel for "no link" and "unreachable". */
  const INF: int := 9999

  type Matrix = seq<seq<int>>

  /** `m` has `n` rows of `n` entries. */
  predicate IsSquareOf(m: Matrix, n: nat) {
    |m| == n && forall i :: 0 <= i < n ==> |m[i]| == n
  }

  predicate IsSquare(m: Matrix) {
    IsSquareOf(m, |m|)
  }

  /** Every link cost off the diagonal is non-negative (INF included). */
  predicate NonNegative(graph: Matrix)
    requires IsSquare(graph)
  {
    forall i, j :: 0 <= i < |graph| && 0 <= j < |graph| && i != j ==> graph[i][j] >= 0
  }

  // ----------------------------------------------------------------------
  // Paths

  /** A walk along links: nodes in range, no step from a node to itself, no INF link. */
  predicate IsPath(graph: Matrix, p: seq<int>)
    requires IsSquare(graph)
  {
    && |p| >= 1
    && (forall k :: 0 <= k < |p| ==> 0 <= p[k] < |graph|)
    && (forall k :: 0 <= k < |p| - 1 ==> p[k] != p[k + 1] && graph[p[k]][p[k + 1]] != INF)
  }

  /** The sum of the link costs along the path. */
  function PathCost(graph: Matrix, p: seq<int>): int
    requires IsSquare(graph) && IsPath(graph, p)
    decreases |p|
  {
    if |p| == 1 then 0 else graph[p[0]][p[1]] + PathCost(graph, p[1..])
  }

  /** Extending a path by one link at its end adds that link's cost. */
  lemma {:induction false} PathCostOfExtension(graph: Matrix, p: seq<int>, v: int)
    requires IsSquare(graph) && IsPath(graph, p) && 0 <= v < |graph| && IsPath(graph, p + [v])
    ensures PathCost(graph, p + [v]) == PathCost(graph, p) + graph[p[|p| - 1]][v]
    decreases |p|
  {
    if |p| > 1 {
      assert (p + [v])[1..] == p[1..] + [v];
      PathCostOfExtension(graph, p[1..], v);
    }
  }

  /** On non-negative links, a path costs at least nothing. */
  lemma {:induction false} PathCostNonNegative(graph: Matrix, p: seq<int>)
    requires IsSquare(graph) && NonNegative(graph) && IsPath(graph, p)
    ensures PathCost(graph, p) >= 0
    decreases |p|
  {
    if |p| > 1 {
      PathCostNonNegative(graph, p[1..]);
    }
  }

  // ----------------------------------------------------------------------
  // readGraphFromFile

  /**
   * The value `file >> graph[i][j]` leaves for the integer at position `p`
   * of the file: 0 once the integers have run out.
   */
  function TokenAt(tokens: seq<int>, p: nat): int {
    if p < |tokens| then tokens[p] else 0
  }

  /**
   * `readGraphFromFile` over the integers of the file: the first is the
   * node count n (0 when there is none), the next n * n fill the matrix
   * row by row. A negative n makes the `vector` constructor throw, which
   * ends the program: None.
   */
  method ReadGraph(tokens: seq<int>) returns (graph: Option<Matrix>)
    ensures graph.None? <==> TokenAt(tokens, 0) < 0
    ensures graph.Some? ==> IsSquareOf(graph.value, TokenAt(tokens, 0))
    ensures graph.Some? ==> forall i, j :: 0 <= i < |graph.value| && 0 <= j < |graph.value| ==>
      graph.value[i][j] == TokenAt(tokens, 1 + i * |graph.value| + j)
  {
    var n := TokenAt(tokens, 0);
    if n < 0 {
      return None;
    }
    var rows: Matrix := [];
    var p := 1;
    var i := 0;
    while i < n
      invariant 0 <= i <= n && p == 1 + i * n
      invariant |rows| == i && forall a :: 0 <= a < i ==> |rows[a]| == n
      invariant forall a, b :: 0 <= a < i && 0 <= b < n ==> rows[a][b] == TokenAt(tokens, 1 + a * n + b)
    {
      var row: seq<int> := [];
      var j := 0;
      while j < n
        invariant 0 <= j <= n && p == 1 + i * n + j
        invariant |row| == j && forall b :: 0 <= b < j ==> row[b] == TokenAt(tokens, 1 + i * n + b)
      {
        row := row + [TokenAt(tokens, p)];
        p := p + 1;
        j := j + 1;
      }
      rows := rows + [row];
      assert 1 + i * n + n == 1 + (i + 1) * n;
      i := i + 1;
    }
    return Some(rows);
  }
}
