// `dijkstra` of problem_4/problem_4.c: single-source shortest distances over an
// integer adjacency matrix, where 0 means "no edge" and INF = 9999 stands for
// "no path found". The result is stated against path costs: every distance is
// the cost of some path, no path is cheaper, and anything at or beyond INF is
// reported as INF.

module Dijkstra {

  /** MAX, INF, and the largest 32-bit `int`. */
  const Max := 20
  const Inf := 9999
  const IntMax := 0x7fff_ffff

  /** The n x n corner of the MAX x MAX matrix that `dijkstra` reads. */
  ghost predicate Matrix(graph: seq<seq<int>>, n: int) {
    |graph| == Max && (forall u :: 0 <= u < Max ==> |graph[u]| == Max) && 0 <= n <= Max
  }

  /**
   * p is a walk from s to t over the vertices 0..n-1 along directed edges u -> v,
   * those with a nonzero graph[u][v].
   */
  ghost predicate IsPath(graph: seq<seq<int>>, n: int, p: seq<int>, s: int, t: int)
    requires Matrix(graph, n)
  {
    |p| >= 1 && p[0] == s && p[|p| - 1] == t
    && (forall k :: 0 <= k < |p| ==> 0 <= p[k] < n)
    && forall k :: 0 <= k < |p| - 1 ==> graph[p[k]][p[k + 1]] != 0
  }

  /** The sum of the edge weights along p. */
  ghost function Cost(graph: seq<seq<int>>, n: int, p: seq<int>): int
    requires Matrix(graph, n) && forall k :: 0 <= k < |p| ==> 0 <= p[k] < n
  {
    if |p| <= 1 then 0 else Cost(graph, n, p[..|p| - 1]) + graph[p[|p| - 2]][p[|p| - 1]]
  }

  /**
   * d is the table of shortest distances from s, capped at INF: each value lies
   * in [0, INF], a value below INF is the cost of a path, and no path costs less.
   */
  ghost predicate ShortestCapped(graph: seq<seq<int>>, n: int, s: int, d: seq<int>)
    requires Matrix(graph, n)
  {
    |d| == n
    && forall v :: 0 <= v < n ==>
         0 <= d[v] <= Inf
         && (d[v] < Inf ==> exists p :: IsPath(graph, n, p, s, v) && Cost(graph, n, p) == d[v])
         && forall p :: IsPath(graph, n, p, s, v) ==> d[v] <= Cost(graph, n, p)
  }

  /** Every weight `dijkstra` reads is non-negative and small enough that dist[u] + w fits in an int. */
  ghost predicate Weights(graph: seq<seq<int>>, n: int)
    requires Matrix(graph, n)
  {
    forall u, v :: 0 <= u < n && 0 <= v < n ==> 0 <= graph[u][v] <= IntMax - Inf
  }

  // ---- Facts about paths and costs ----

  lemma {:induction false} CostNonNegative(graph: seq<seq<int>>, n: int, p: seq<int>)
    requires Matrix(graph, n) && Weights(graph, n) && forall k :: 0 <= k < |p| ==> 0 <= p[k] < n
    ensures Cost(graph, n, p) >= 0
    decreases |p|
  {
    if |p| > 1 {
      CostNonNegative(graph, n, p[..|p| - 1]);
    }
  }

  /** A prefix of a path costs no more than the path. */
  lemma {:induction false} CostPrefix(graph: seq<seq<int>>, n: int, p: seq<int>, j: int)
    requires Matrix(graph, n) && Weights(graph, n) && forall k :: 0 <= k < |p| ==> 0 <= p[k] < n
    requires 1 <= j <= |p|
    ensures Cost(graph, n, p[..j]) <= Cost(graph, n, p)
    decreases |p|
  {
    if j < |p| {
      assert p[..|p| - 1][..j] == p[..j];
      CostPrefix(graph, n, p[..|p| - 1], j);
    } else {
      assert p[..j] == p;
    }
  }

  /** The first k+1 vertices of a path from s form a path from s to p[k]. */
  lemma PathPrefix(graph: seq<seq<int>>, n: int, p: seq<int>, s: int, t: int, k: int)
    requires Matrix(graph, n) && IsPath(graph, n, p, s, t) && 0 <= k < |p|
    ensures IsPath(graph, n, p[..k + 1], s, p[k])
  {
  }

  /** A path to u followed by the edge u -> v. */
  lemma PathExtend(graph: seq<seq<int>>, n: int, p: seq<int>, s: int, u: int, v: int)
    requires Matrix(graph, n) && IsPath(graph, n, p, s, u) && 0 <= v < n && graph[u][v] != 0
    ensures IsPath(graph, n, p + [v], s, v)
    ensures Cost(graph, n, p + [v]) == Cost(graph, n, p) + graph[u][v]
  {
    assert (p + [v])[..|p|] == p;
  }

  // ---- The state of the main loop ----

  /** The number of visited vertices. */
  function CountVisited(vis: seq<bool>): (c: nat)
    ensures c <= |vis|
  {
    if vis == [] then 0 else (if vis[|vis| - 1] then 1 else 0) + CountVisited(vis[..|vis| - 1])
  }

  lemma {:induction false} CountMark(vis: seq<bool>, u: int)
    requires 0 <= u < |vis| && !vis[u]
    ensures CountVisited(vis[u := true]) == CountVisited(vis) + 1
    decreases |vis|
  {
    var w := vis[u := true];
    if u < |vis| - 1 {
      assert w[..|w| - 1] == vis[..|vis| - 1][u := true];
      CountMark(vis[..|vis| - 1], u);
    } else {
      assert w[..|w| - 1] == vis[..|vis| - 1];
    }
  }

  lemma {:induction false} CountNone(vis: seq<bool>)
    requires forall v :: 0 <= v < |vis| ==> !vis[v]
    ensures CountVisited(vis) == 0
    decreases |vis|
  {
    if vis != [] {
      CountNone(vis[..|vis| - 1]);
    }
  }

  /** Two unvisited vertices leave at most |vis| - 2 visited. */
  lemma {:induction false} CountTwoUnvisited(vis: seq<bool>, a: int, b: int)
    requires 0 <= a < b < |vis| && !vis[a] && !vis[b]
    ensures CountVisited(vis) <= |vis| - 2
    decreases |vis|
  {
    if b < |vis| - 1 {
      CountTwoUnvisited(vis[..|vis| - 1], a, b);
    } else {
      CountOneUnvisited(vis[..|vis| - 1], a);
    }
  }

  /** An unvisited vertex leaves at most |vis| - 1 visited. */
  lemma {:induction false} CountOneUnvisited(vis: seq<bool>, a: int)
    requires 0 <= a < |vis| && !vis[a]
    ensures CountVisited(vis) <= |vis| - 1
    decreases |vis|
  {
    if a < |vis| - 1 {
      CountOneUnvisited(vis[..|vis| - 1], a);
    }
  }

  /** Fewer than |vis| visited vertices leave one unvisited. */
  lemma {:induction false} CountSomeUnvisited(vis: seq<bool>)
    requires CountVisited(vis) < |vis|
    ensures exists v :: 0 <= v < |vis| && !vis[v]
    decreases |vis|
  {
    if vis[|vis| - 1] {
      CountSomeUnvisited(vis[..|vis| - 1]);
      var v :| 0 <= v < |vis| - 1 && !vis[..|vis| - 1][v];
      assert !vis[v];
    }
  }

  /**
   * The vertex the selection loop settles on: unvisited, of least distance
   * among the unvisited, and the highest-numbered one of those, since the
   * comparison `dist[v] <= min` lets a later equal value win.
   */
  ghost predicate IsPick(d: seq<int>, vis: seq<bool>, u: int) {
    |vis| == |d| && 0 <= u < |d| && !vis[u]
    && (forall v :: 0 <= v < |d| && !vis[v] ==> d[u] <= d[v])
    && forall v :: u < v < |d| && !vis[v] ==> d[u] < d[v]
  }

  /** The selection is determined by dist and visited. */
  lemma PickUnique(d: seq<int>, vis: seq<bool>, u1: int, u2: int)
    requires IsPick(d, vis, u1) && IsPick(d, vis, u2)
    ensures u1 == u2
  {
    assert d[u1] <= d[u2] && d[u2] <= d[u1];
  }

  /** After initialisation the first vertex selected is the source. */
  lemma FirstPickIsSource(n: int, s: int, u: int)
    requires 0 <= s < n
    requires IsPick(seq(n, _ => Inf)[s := 0], seq(n, _ => false), u)
    ensures u == s
  {
    var d := seq(n, _ => Inf)[s := 0];
    assert d[u] <= d[s] == 0;
  }

  /**
   * One relaxation pass from u: every unvisited v with an edge u -> v whose
   * route through u is strictly shorter takes dist[u] + graph[u][v].
   */
  function Relaxed(graph: seq<seq<int>>, n: int, d: seq<int>, vis: seq<bool>, u: int): (r: seq<int>)
    requires |graph| == Max && (forall x :: 0 <= x < Max ==> |graph[x]| == Max)
    requires 0 <= n <= Max && |d| == n && |vis| == n && 0 <= u < n
    ensures |r| == n
    ensures forall v :: 0 <= v < n ==> r[v] <= d[v]
    ensures forall v :: 0 <= v < n && vis[v] ==> r[v] == d[v]
    ensures forall v :: 0 <= v < n && !vis[v] && graph[u][v] != 0 ==> r[v] <= d[u] + graph[u][v]
  {
    seq(n, v requires 0 <= v < n =>
      if !vis[v] && graph[u][v] != 0 && d[u] + graph[u][v] < d[v] then d[u] + graph[u][v] else d[v])
  }

  /** Distances lie in [0, INF] and the source's is 0. */
  ghost predicate Bounded(n: int, s: int, d: seq<int>) {
    0 <= s < n && |d| == n && d[s] == 0 && forall v :: 0 <= v < n ==> 0 <= d[v] <= Inf
  }

  /** w[v] is a path of cost d[v] whenever d[v] is below INF. */
  ghost predicate Witnessed(graph: seq<seq<int>>, n: int, s: int, d: seq<int>, w: seq<seq<int>>)
    requires Matrix(graph, n)
  {
    |d| == n && |w| == n
    && forall v :: 0 <= v < n && d[v] < Inf ==> IsPath(graph, n, w[v], s, v) && Cost(graph, n, w[v]) == d[v]
  }

  /** No path to a visited vertex is cheaper than its distance. */
  ghost predicate Settled(graph: seq<seq<int>>, n: int, s: int, d: seq<int>, vis: seq<bool>)
    requires Matrix(graph, n)
  {
    |d| == n && |vis| == n
    && forall v, p :: 0 <= v < n && vis[v] && IsPath(graph, n, p, s, v) ==> d[v] <= Cost(graph, n, p)
  }

  /** Every edge from a visited to an unvisited vertex has been relaxed. */
  ghost predicate RelaxedFrom(graph: seq<seq<int>>, n: int, d: seq<int>, vis: seq<bool>)
    requires Matrix(graph, n)
  {
    |d| == n && |vis| == n
    && forall x, y :: 0 <= x < n && 0 <= y < n && vis[x] && !vis[y] && graph[x][y] != 0 ==>
         d[y] <= d[x] + graph[x][y]
  }

  /** No unvisited vertex is nearer than a visited one. */
  ghost predicate Layered(n: int, d: seq<int>, vis: seq<bool>) {
    |d| == n && |vis| == n
    && forall x, y :: 0 <= x < n && 0 <= y < n && vis[x] && !vis[y] ==> d[x] <= d[y]
  }

  /**
   * The loop invariant: distances in [0, INF] with witnesses w[v] for the
   * finite ones; the visited distances are final; the unvisited ones have been
   * relaxed from every visited vertex and are no smaller than any visited one.
   */
  ghost predicate Inv(graph: seq<seq<int>>, n: int, s: int, d: seq<int>, vis: seq<bool>, w: seq<seq<int>>)
    requires Matrix(graph, n)
  {
    Bounded(n, s, d) && Witnessed(graph, n, s, d, w) && Settled(graph, n, s, d, vis)
    && RelaxedFrom(graph, n, d, vis) && Layered(n, d, vis)
  }

  /**
   * The heart of the proof: an unvisited vertex of least distance has its final
   * distance, since every path to it leaves the visited set somewhere.
   */
  lemma MinIsFinal(graph: seq<seq<int>>, n: int, s: int, d: seq<int>, vis: seq<bool>, u: int, p: seq<int>)
    requires Matrix(graph, n) && Weights(graph, n)
    requires Bounded(n, s, d) && Settled(graph, n, s, d, vis) && RelaxedFrom(graph, n, d, vis)
    requires 0 <= u < n && !vis[u] && forall v :: 0 <= v < n && !vis[v] ==> d[u] <= d[v]
    requires IsPath(graph, n, p, s, u)
    ensures d[u] <= Cost(graph, n, p)
  {
    var k := FirstUnvisited(vis, p, n);
    var y := p[k];
    PathPrefix(graph, n, p, s, u, k);
    CostPrefix(graph, n, p, k + 1);
    if k == 0 {
      CostNonNegative(graph, n, p);
      assert d[u] <= d[s] == 0;
    } else {
      var x := p[k - 1];
      PathPrefix(graph, n, p, s, u, k - 1);
      assert p[..k + 1] == p[..k] + [y];
      PathExtend(graph, n, p[..k], s, x, y);
      assert d[x] <= Cost(graph, n, p[..k]);
      assert d[y] <= d[x] + graph[x][y];
      assert d[u] <= d[y] <= Cost(graph, n, p[..k + 1]);
    }
  }

  /** The index of the first unvisited vertex on p. */
  lemma FirstUnvisited(vis: seq<bool>, p: seq<int>, n: int) returns (k: int)
    requires |vis| == n && |p| >= 1 && (forall i :: 0 <= i < |p| ==> 0 <= p[i] < n) && !vis[p[|p| - 1]]
    ensures 0 <= k < |p| && !vis[p[k]] && forall i :: 0 <= i < k ==> vis[p[i]]
  {
    k := 0;
    while vis[p[k]]
      invariant 0 <= k < |p| && forall i :: 0 <= i < k ==> vis[p[i]]
      decreases |p| - k
    {
      k := k + 1;
    }
  }

  /** Marking the selected vertex and relaxing from it keeps the invariant. */
  lemma InvStep(graph: seq<seq<int>>, n: int, s: int, d: seq<int>, vis: seq<bool>, w: seq<seq<int>>, u: int)
    returns (w': seq<seq<int>>)
    requires Matrix(graph, n) && Weights(graph, n) && Inv(graph, n, s, d, vis, w) && IsPick(d, vis, u)
    ensures Inv(graph, n, s, Relaxed(graph, n, d, vis[u := true], u), vis[u := true], w')
  {
    var vis' := vis[u := true];
    var d' := Relaxed(graph, n, d, vis', u);
    w' := seq(n, v requires 0 <= v < n => if d'[v] < d[v] then w[u] + [v] else w[v]);
    WitnessStep(graph, n, s, d, vis', w, u, w');
    SettledStep(graph, n, s, d, vis, w, u);
    RelaxedStep(graph, n, d, vis, u);
    LayeredStep(graph, n, d, vis, u);
  }

  /** An improved distance is the cost of the path to u extended by the edge to v. */
  lemma WitnessStep(graph: seq<seq<int>>, n: int, s: int, d: seq<int>, vis': seq<bool>, w: seq<seq<int>>,
                    u: int, w': seq<seq<int>>)
    requires Matrix(graph, n) && Weights(graph, n) && Bounded(n, s, d) && Witnessed(graph, n, s, d, w)
    requires |vis'| == n && 0 <= u < n
    requires w' == seq(n, v requires 0 <= v < n =>
      if Relaxed(graph, n, d, vis', u)[v] < d[v] then w[u] + [v] else w[v])
    ensures Witnessed(graph, n, s, Relaxed(graph, n, d, vis', u), w')
  {
    var d' := Relaxed(graph, n, d, vis', u);
    forall v | 0 <= v < n && d'[v] < Inf
      ensures IsPath(graph, n, w'[v], s, v) && Cost(graph, n, w'[v]) == d'[v]
    {
      if d'[v] < d[v] {
        assert d'[v] == d[u] + graph[u][v] && graph[u][v] != 0;
        assert d[u] < Inf;
        PathExtend(graph, n, w[u], s, u, v);
      } else {
        assert w'[v] == w[v] && d'[v] == d[v];
      }
    }
  }

  /** The selected vertex joins the visited set with its final distance. */
  lemma SettledStep(graph: seq<seq<int>>, n: int, s: int, d: seq<int>, vis: seq<bool>, w: seq<seq<int>>, u: int)
    requires Matrix(graph, n) && Weights(graph, n) && Inv(graph, n, s, d, vis, w) && IsPick(d, vis, u)
    ensures Settled(graph, n, s, Relaxed(graph, n, d, vis[u := true], u), vis[u := true])
  {
    var vis' := vis[u := true];
    var d' := Relaxed(graph, n, d, vis', u);
    forall v, p | 0 <= v < n && vis'[v] && IsPath(graph, n, p, s, v)
      ensures d'[v] <= Cost(graph, n, p)
    {
      if v == u {
        MinIsFinal(graph, n, s, d, vis, u, p);
      } else {
        assert vis[v] && d'[v] == d[v];
      }
    }
  }

  /** Edges from the old visited set stay relaxed, and those from u are relaxed now. */
  lemma RelaxedStep(graph: seq<seq<int>>, n: int, d: seq<int>, vis: seq<bool>, u: int)
    requires Matrix(graph, n) && RelaxedFrom(graph, n, d, vis) && IsPick(d, vis, u)
    ensures RelaxedFrom(graph, n, Relaxed(graph, n, d, vis[u := true], u), vis[u := true])
  {
    var vis' := vis[u := true];
    var d' := Relaxed(graph, n, d, vis', u);
    forall x, y | 0 <= x < n && 0 <= y < n && vis'[x] && !vis'[y] && graph[x][y] != 0
      ensures d'[y] <= d'[x] + graph[x][y]
    {
      assert d'[x] == d[x];
    }
  }

  /** u was the nearest unvisited vertex, and relaxing from it lowers nothing below d[u]. */
  lemma LayeredStep(graph: seq<seq<int>>, n: int, d: seq<int>, vis: seq<bool>, u: int)
    requires Matrix(graph, n) && Weights(graph, n) && Layered(n, d, vis) && IsPick(d, vis, u)
    ensures Layered(n, Relaxed(graph, n, d, vis[u := true], u), vis[u := true])
  {
    var vis' := vis[u := true];
    var d' := Relaxed(graph, n, d, vis', u);
    forall x, y | 0 <= x < n && 0 <= y < n && vis'[x] && !vis'[y]
      ensures d'[x] <= d'[y]
    {
      assert d'[x] == d[x] && d[x] <= d[u];
    }
  }

  // ---- The algorithm ----

  /**
   * `dijkstra(graph, n, src)`: initialise, then n - 1 times select the nearest
   * unvisited vertex, mark it and relax its outgoing edges. The distances it
   * would print are returned.
   */
  method Dijkstra(graph: seq<seq<int>>, n: int, src: int) returns (distances: seq<int>)
    requires Matrix(graph, n) && Weights(graph, n) && 0 <= src < n
    ensures ShortestCapped(graph, n, src, distances)
  {
    var dist, visited := Initialize(n, src);
    ghost var w := seq(n, v => [src]);
    ghost var d, vis := dist[..], visited[..];
    InvStart(graph, n, src, d, vis, w);
    for count := 0 to n - 1
      invariant dist[..] == d && visited[..] == vis
      invariant Inv(graph, n, src, d, vis, w) && CountVisited(vis) == count
    {
      CountSomeUnvisited(vis);
      var u := Round(graph, n, dist, visited, vis, d);
      CountMark(vis, u);
      w := InvStep(graph, n, src, d, vis, w, u);
      d, vis := Relaxed(graph, n, d, vis[u := true], u), vis[u := true];
    }
    distances := dist[..];
    Finish(graph, n, src, distances, vis, w);
  }

  /** After n - 1 rounds at most one vertex is unvisited, and it too has its final distance. */
  lemma Finish(graph: seq<seq<int>>, n: int, s: int, d: seq<int>, vis: seq<bool>, w: seq<seq<int>>)
    requires Matrix(graph, n) && Weights(graph, n) && Inv(graph, n, s, d, vis, w)
    requires CountVisited(vis) == n - 1
    ensures ShortestCapped(graph, n, s, d)
  {
    forall v, p | 0 <= v < n && !vis[v] && IsPath(graph, n, p, s, v)
      ensures d[v] <= Cost(graph, n, p)
    {
      forall y | 0 <= y < n && !vis[y]
        ensures d[v] <= d[y]
      {
        if y < v {
          CountTwoUnvisited(vis, y, v);
        } else if v < y {
          CountTwoUnvisited(vis, v, y);
        }
      }
      MinIsFinal(graph, n, s, d, vis, v, p);
    }
  }

  /** The first loop of `dijkstra`: every distance INF and nothing visited, then dist[src] = 0. */
  method Initialize(n: int, src: int) returns (dist: array<int>, visited: array<bool>)
    requires 0 <= src < n
    ensures fresh(dist) && fresh(visited)
    ensures dist[..] == seq(n, _ => Inf)[src := 0] && visited[..] == seq(n, _ => false)
  {
    dist := new int[n];
    visited := new bool[n];
    for i := 0 to n
      invariant forall v :: 0 <= v < i ==> dist[v] == Inf && !visited[v]
    {
      dist[i] := Inf;
      visited[i] := false;
    }
    dist[src] := 0;
  }

  /** The invariant holds before the first round, with the one-vertex path [src] as every witness. */
  lemma InvStart(graph: seq<seq<int>>, n: int, s: int, d: seq<int>, vis: seq<bool>, w: seq<seq<int>>)
    requires Matrix(graph, n) && 0 <= s < n
    requires d == seq(n, _ => Inf)[s := 0] && vis == seq(n, _ => false) && w == seq(n, v => [s])
    ensures Inv(graph, n, s, d, vis, w) && CountVisited(vis) == 0
  {
    assert IsPath(graph, n, [s], s, s);
    CountNone(vis);
  }

  /** One round of the outer loop: select u, mark it visited, relax its edges. */
  method Round(graph: seq<seq<int>>, n: int, dist: array<int>, visited: array<bool>,
               ghost vis: seq<bool>, ghost d: seq<int>) returns (u: int)
    requires Matrix(graph, n) && Weights(graph, n) && dist.Length == n && visited.Length == n
    requires dist[..] == d && visited[..] == vis
    requires (forall v :: 0 <= v < n ==> 0 <= d[v] <= Inf) && exists v :: 0 <= v < n && !vis[v]
    modifies dist, visited
    ensures IsPick(d, vis, u)
    ensures visited[..] == vis[u := true] && dist[..] == Relaxed(graph, n, d, vis[u := true], u)
  {
    u := SelectMin(dist, visited);
    visited[u] := true;
    assert visited[..] == vis[u := true];
    Relax(graph, n, dist, visited, u);
  }

  /** The selection loop: the last unvisited vertex whose dist is at most the running minimum. */
  method SelectMin(dist: array<int>, visited: array<bool>) returns (u: int)
    requires dist.Length == visited.Length
    requires forall v :: 0 <= v < dist.Length ==> dist[v] <= Inf
    requires exists v :: 0 <= v < visited.Length && !visited[v]
    ensures IsPick(dist[..], visited[..], u)
  {
    var min := Inf;
    u := -1;
    for v := 0 to dist.Length
      invariant u == -1 ==> min == Inf && forall x :: 0 <= x < v ==> visited[x]
      invariant u != -1 ==> 0 <= u < v && !visited[u] && min == dist[u]
      invariant forall x :: 0 <= x < v && !visited[x] ==> min <= dist[x]
      invariant forall x :: u < x < v && !visited[x] ==> min < dist[x]
    {
      if !visited[v] && dist[v] <= min {
        min := dist[v];
        u := v;
      }
    }
  }

  /** The relaxation loop over row u; the sums it forms stay within 32 bits. */
  method Relax(graph: seq<seq<int>>, n: int, dist: array<int>, visited: array<bool>, u: int)
    requires Matrix(graph, n) && Weights(graph, n)
    requires dist.Length == n && visited.Length == n && 0 <= u < n && visited[u]
    requires forall v :: 0 <= v < n ==> 0 <= dist[v] <= Inf
    modifies dist
    ensures dist[..] == Relaxed(graph, n, old(dist[..]), visited[..], u)
  {
    for v := 0 to n
      invariant dist[u] == old(dist[u])
      invariant forall x :: 0 <= x < v ==> dist[x] == Relaxed(graph, n, old(dist[..]), visited[..], u)[x]
      invariant forall x :: v <= x < n ==> dist[x] == old(dist[x])
    {
      if !visited[v] && graph[u][v] != 0 {
        assert dist[u] + graph[u][v] <= IntMax;
        if dist[u] + graph[u][v] < dist[v] {
          dist[v] := dist[u] + graph[u][v];
        }
      }
    }
  }

  // ---- Consequences ----

  /** The capped distance table is unique: any two tables meeting it agree. */
  lemma ShortestCappedUnique(graph: seq<seq<int>>, n: int, s: int, d1: seq<int>, d2: seq<int>)
    requires Matrix(graph, n) && ShortestCapped(graph, n, s, d1) && ShortestCapped(graph, n, s, d2)
    ensures d1 == d2
  {
    forall v | 0 <= v < n
      ensures d1[v] == d2[v]
    {
      if d1[v] < Inf {
        var p :| IsPath(graph, n, p, s, v) && Cost(graph, n, p) == d1[v];
      }
      if d2[v] < Inf {
        var p :| IsPath(graph, n, p, s, v) && Cost(graph, n, p) == d2[v];
      }
    }
  }

  /**
   * When every path from s to v costs less than INF, the distance is INF
   * exactly when v cannot be reached.
   */
  lemma InfIffUnreachable(graph: seq<seq<int>>, n: int, s: int, d: seq<int>, v: int)
    requires Matrix(graph, n) && ShortestCapped(graph, n, s, d) && 0 <= v < n
    requires forall p :: IsPath(graph, n, p, s, v) ==> Cost(graph, n, p) < Inf
    ensures d[v] == Inf <==> !exists p :: IsPath(graph, n, p, s, v)
  {
    if exists p :: IsPath(graph, n, p, s, v) {
      var p :| IsPath(graph, n, p, s, v);
      assert d[v] <= Cost(graph, n, p);
    }
  }
}
