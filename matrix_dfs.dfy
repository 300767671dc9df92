// Model of problem_1/problem_1.c: the same timestamped DFS over a fixed-size
// adjacency matrix, trying neighbours in increasing index order.

module MatrixDfs {
  import opened DfsSpec

  /** MAX: the side of the matrix and the length of the global arrays. */
  const Max := 5

  /**
   * The neighbours of a row's vertex among from..n-1, in the order the loop
   * over v tries them: the indices whose entry is non-zero.
   */
  function Successors(row: seq<int>, from: int, n: int): (r: seq<int>)
    requires 0 <= from <= n <= |row|
    ensures forall i :: 0 <= i < |r| ==> from <= r[i] < n
    decreases n - from
  {
    if from == n then []
    else if row[from] != 0 then [from] + Successors(row, from + 1, n)
    else Successors(row, from + 1, n)
  }

  /** Successors lists exactly the non-zero entries, each once, in increasing order. */
  lemma {:induction false} SuccessorsExact(row: seq<int>, from: int, n: int)
    requires 0 <= from <= n <= |row|
    ensures forall v :: v in Successors(row, from, n) <==> from <= v < n && row[v] != 0
    ensures forall i, j :: 0 <= i < j < |Successors(row, from, n)| ==>
      Successors(row, from, n)[i] < Successors(row, from, n)[j]
    decreases n - from
  {
    if from < n {
      SuccessorsExact(row, from + 1, n);
    }
  }

  /** The successor lists the matrix program explores, over its first n vertices. */
  function MatrixGraph(m: seq<seq<int>>, n: int): (g: seq<seq<int>>)
    requires 0 <= n <= |m| && forall u :: 0 <= u < n ==> n <= |m[u]|
    ensures |g| == n && ValidGraph(g)
  {
    seq(n, u requires 0 <= u < n => Successors(m[u], 0, n))
  }

  /** An edge u -> v of the matrix graph is exactly a non-zero entry m[u][v]. */
  lemma MatrixGraphEdges(m: seq<seq<int>>, n: int, u: int, v: int)
    requires 0 <= n <= |m| && forall w :: 0 <= w < n ==> n <= |m[w]|
    requires 0 <= u < n && 0 <= v < n
    ensures v in MatrixGraph(m, n)[u] <==> m[u][v] != 0
  {
    SuccessorsExact(m[u], 0, n);
  }

  /** One turn of the loop over v: v is explored when its entry is non-zero and it is unvisited. */
  lemma MatrixStep(g: seq<seq<int>>, row: seq<int>, v: int, n: int, st: DfsState)
    requires ValidGraph(g) && |g| == n && Sized(st, n) && 0 <= v < n <= |row|
    ensures row[v] != 0 && !st.visited[v] ==>
      DfsList(g, Successors(row, v, n), st) == DfsList(g, Successors(row, v + 1, n), Dfs(g, v, st))
    ensures row[v] == 0 || st.visited[v] ==>
      DfsList(g, Successors(row, v, n), st) == DfsList(g, Successors(row, v + 1, n), st)
  {
    var todo := Successors(row, v, n);
    if row[v] != 0 {
      assert todo[0] == v && todo[0..] == todo && todo[1..] == Successors(row, v + 1, n);
      DfsListStep(g, todo, 0, st);
    }
  }

  /** The global matrix `adj`, the arrays `visited`, `discovery`, `finish` and the clock `time`. */
  class MatrixSearch {
    const adj: array2<int>
    const visited: array<bool>
    const discovery: array<int>
    const finish: array<int>
    var time: int

    ghost predicate Valid()
      reads this
    {
      adj.Length0 == Max && adj.Length1 == Max
      && visited.Length == Max && discovery.Length == Max && finish.Length == Max
      && discovery != finish
    }

    /** The first k entries of row u of the matrix. */
    ghost function Row(u: int, k: int): (r: seq<int>)
      requires 0 <= u < adj.Length0 && 0 <= k <= adj.Length1
      reads adj
      ensures |r| == k && forall v :: 0 <= v < k ==> r[v] == adj[u, v]
    {
      if k == 0 then [] else Row(u, k - 1) + [adj[u, k - 1]]
    }

    /** The first k rows of the matrix. */
    ghost function Rows(k: int): (m: seq<seq<int>>)
      requires 0 <= k <= adj.Length0
      reads adj
      ensures |m| == k && forall u :: 0 <= u < k ==> m[u] == Row(u, adj.Length1)
    {
      if k == 0 then [] else Rows(k - 1) + [Row(k - 1, adj.Length1)]
    }

    /** The matrix as rows. */
    ghost function Matrix(): (m: seq<seq<int>>)
      reads adj
      ensures |m| == adj.Length0 && forall u :: 0 <= u < |m| ==> |m[u]| == adj.Length1
    {
      Rows(adj.Length0)
    }

    /** The graph DFS(·, n) explores. */
    ghost function Graph(n: int): seq<seq<int>>
      requires 0 <= n <= adj.Length0 && n <= adj.Length1
      reads adj
    {
      MatrixGraph(Matrix(), n)
    }

    /** The first n entries of the globals, as a specification state. */
    ghost function State(n: int): DfsState
      requires Valid() && 0 <= n <= Max
      reads this, visited, discovery, finish
    {
      DfsState(visited[..n], discovery[..n], finish[..n], time)
    }

    /** C globals start zeroed. */
    constructor ()
      ensures Valid() && time == 0
      ensures fresh(adj) && fresh(visited) && fresh(discovery) && fresh(finish)
      ensures forall u, v :: 0 <= u < Max && 0 <= v < Max ==> adj[u, v] == 0
      ensures forall v :: 0 <= v < Max ==> !visited[v] && discovery[v] == 0 && finish[v] == 0
    {
      adj := new int[Max, Max]((_, _) => 0);
      visited := new bool[Max](_ => false);
      discovery := new int[Max](_ => 0);
      finish := new int[Max](_ => 0);
      time := 0;
    }

    /** The first loop of `main`: every matrix entry set to 0. */
    method ClearMatrix()
      requires Valid()
      modifies adj
      ensures forall a, b :: 0 <= a < Max && 0 <= b < Max ==> adj[a, b] == 0
    {
      for i := 0 to Max
        invariant forall a, b :: 0 <= a < i && 0 <= b < Max ==> adj[a, b] == 0
      {
        for j := 0 to Max
          invariant forall a, b :: 0 <= a < i && 0 <= b < Max ==> adj[a, b] == 0
          invariant forall b :: 0 <= b < j ==> adj[i, b] == 0
        {
          adj[i, j] := 0;
        }
      }
    }

    /** The loop of `main` that clears `visited` before the search. */
    method ClearVisited()
      requires Valid()
      modifies visited
      ensures forall v :: 0 <= v < Max ==> !visited[v]
    {
      for i := 0 to Max
        invariant forall v :: 0 <= v < i ==> !visited[v]
      {
        visited[i] := false;
      }
    }

    /**
     * `DFS(u, n)`: stamps u's discovery, runs the loop over u's row, then
     * stamps u's finish. The result is the specification's DFS of the matrix
     * graph.
     */
    method Dfs(u: int, n: int)
      requires Valid() && 0 <= u < n <= Max && !visited[u]
      modifies this, visited, discovery, finish
      ensures Valid()
      ensures State(n) == DfsSpec.Dfs(Graph(n), u, old(State(n)))
      ensures visited[n..] == old(visited[n..]) && discovery[n..] == old(discovery[n..])
      ensures finish[n..] == old(finish[n..])
      decreases Unseen(State(n)), 1
    {
      ghost var st0 := State(n);
      visited[u] := true;
      time := time + 1;
      discovery[u] := time;
      ghost var st1 := State(n);
      assert st1 == Discover(st0, u);
      assert Unseen(st1) < Unseen(st0) by {
        UnseenShrinks(st0, st1, u);
      }
      ExploreRow(u, n);
      ghost var st2 := State(n);
      time := time + 1;
      finish[u] := time;
      assert State(n) == Finish(st2, u);
    }

    /**
     * The loop of `DFS(u, n)`: for v = 0..n-1 in order, recurses on v when
     * adj[u][v] is non-zero and v is unvisited. The result is the
     * specification's loop over u's successor list.
     */
    method ExploreRow(u: int, n: int)
      requires Valid() && 0 <= u < n <= Max
      modifies this, visited, discovery, finish
      ensures Valid()
      ensures State(n) == DfsList(Graph(n), Graph(n)[u], old(State(n)))
      ensures visited[n..] == old(visited[n..]) && discovery[n..] == old(discovery[n..])
      ensures finish[n..] == old(finish[n..])
      decreases Unseen(State(n)), 2
    {
      ghost var g := Graph(n);
      ghost var row := Matrix()[u];
      ghost var st0 := State(n);
      assert g[u] == Successors(row, 0, n);
      assert forall w :: 0 <= w < n ==> row[w] == adj[u, w];
      for v := 0 to n
        invariant Valid() && Sized(State(n), n) && Graph(n) == g
        invariant forall w :: 0 <= w < n ==> row[w] == adj[u, w]
        invariant Unseen(State(n)) <= Unseen(st0)
        invariant DfsList(g, Successors(row, v, n), State(n)) == DfsList(g, g[u], st0)
        invariant visited[n..] == old(visited[n..]) && discovery[n..] == old(discovery[n..])
        invariant finish[n..] == old(finish[n..])
      {
        ghost var pre := State(n);
        if adj[u, v] != 0 && !visited[v] {
          Dfs(v, n);
          assert Unseen(State(n)) <= Unseen(st0) by {
            UnseenGrow(pre, State(n));
          }
        }
        assert DfsList(g, Successors(row, v, n), pre) == DfsList(g, Successors(row, v + 1, n), State(n)) by {
          MatrixStep(g, row, v, n, pre);
        }
      }
    }
  }
}
