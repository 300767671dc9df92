// The fixed run of problem_1/problem_1.c `main`: a cleared 5x5 matrix with the
// edges 0->1, 0->2, 1->3, 2->4 and a DFS from vertex 0 over all five vertices.

module MatrixScenario {
  import opened DfsSpec
  import opened MatrixDfs

  /** The matrix `main` fills in. */
  const SampleMatrix: seq<seq<int>> :=
    [[0, 1, 1, 0, 0], [0, 0, 0, 1, 0], [0, 0, 0, 0, 1], [0, 0, 0, 0, 0], [0, 0, 0, 0, 0]]

  /** Its successor lists, in increasing index order. */
  lemma SampleGraph()
    ensures MatrixGraph(SampleMatrix, 5) == [[1, 2], [3], [4], [], []]
  {
    var m := SampleMatrix;
    assert Successors(m[0], 0, 5) == [1, 2];
    assert Successors(m[1], 0, 5) == [3];
    assert Successors(m[2], 0, 5) == [4];
    assert Successors(m[3], 0, 5) == [];
    assert Successors(m[4], 0, 5) == [];
  }

  /** DFS(1) after DFS(0) has begun: explores 3, a leaf. */
  lemma MatrixVisit1(g: seq<seq<int>>)
    requires g == [[1, 2], [3], [4], [], []]
    ensures ValidGraph(g)
    ensures Dfs(g, 1, DfsState([true, false, false, false, false], [1, 0, 0, 0, 0], [0, 0, 0, 0, 0], 1))
         == DfsState([true, true, false, true, false], [1, 2, 0, 3, 0], [0, 5, 0, 4, 0], 5)
  {
    assert ValidGraph(g);
    var a := DfsState([true, false, false, false, false], [1, 0, 0, 0, 0], [0, 0, 0, 0, 0], 1);
    var b := DfsState([true, true, false, false, false], [1, 2, 0, 0, 0], [0, 0, 0, 0, 0], 2);
    var c := DfsState([true, true, false, true, false], [1, 2, 0, 3, 0], [0, 0, 0, 0, 0], 3);
    var d := DfsState([true, true, false, true, false], [1, 2, 0, 3, 0], [0, 0, 0, 4, 0], 4);
    assert Discover(a, 1) == b;
    assert Discover(b, 3) == c;
    assert Finish(c, 3) == d;
    assert Dfs(g, 3, b) == d by {
      assert DfsList(g, g[3], c) == c;
    }
    assert DfsList(g, g[1], b) == d by {
      assert DfsList(g, g[1][1..], d) == d;
    }
  }

  /** DFS(2) after 1 and 3 are finished: explores 4, a leaf. */
  lemma MatrixVisit2(g: seq<seq<int>>)
    requires g == [[1, 2], [3], [4], [], []]
    ensures ValidGraph(g)
    ensures Dfs(g, 2, DfsState([true, true, false, true, false], [1, 2, 0, 3, 0], [0, 5, 0, 4, 0], 5))
         == DfsState([true, true, true, true, true], [1, 2, 6, 3, 7], [0, 5, 9, 4, 8], 9)
  {
    assert ValidGraph(g);
    var e := DfsState([true, true, false, true, false], [1, 2, 0, 3, 0], [0, 5, 0, 4, 0], 5);
    var f := DfsState([true, true, true, true, false], [1, 2, 6, 3, 0], [0, 5, 0, 4, 0], 6);
    var h := DfsState([true, true, true, true, true], [1, 2, 6, 3, 7], [0, 5, 0, 4, 0], 7);
    var j := DfsState([true, true, true, true, true], [1, 2, 6, 3, 7], [0, 5, 0, 4, 8], 8);
    assert Discover(e, 2) == f;
    assert Discover(f, 4) == h;
    assert Finish(h, 4) == j;
    assert Dfs(g, 4, f) == j by {
      assert DfsList(g, g[4], h) == h;
    }
    assert DfsList(g, g[2], f) == j by {
      assert DfsList(g, g[2][1..], j) == j;
    }
  }

  /** The whole run: neighbours are tried in increasing order, so 0 explores 1 (then 3) before 2 (then 4). */
  lemma MatrixRun()
    ensures ValidGraph(MatrixGraph(SampleMatrix, 5))
    ensures DfsFrom(MatrixGraph(SampleMatrix, 5), 0)
         == DfsState([true, true, true, true, true], [1, 2, 6, 3, 7], [10, 5, 9, 4, 8], 10)
  {
    SampleGraph();
    var g := MatrixGraph(SampleMatrix, 5);
    MatrixVisit1(g);
    MatrixVisit2(g);
    var a := DfsState([true, false, false, false, false], [1, 0, 0, 0, 0], [0, 0, 0, 0, 0], 1);
    var e := DfsState([true, true, false, true, false], [1, 2, 0, 3, 0], [0, 5, 0, 4, 0], 5);
    var i := DfsState([true, true, true, true, true], [1, 2, 6, 3, 7], [0, 5, 9, 4, 8], 9);
    assert Discover(Init(5), 0) == a;
    assert DfsList(g, g[0], a) == i by {
      assert DfsList(g, g[0], a) == DfsList(g, g[0][1..], e);
      assert DfsList(g, g[0][1..], e) == DfsList(g, g[0][2..], i);
      assert DfsList(g, g[0][2..], i) == i;
    }
  }

  /** `main`: fills the matrix, clears `visited`, runs `DFS(0, 5)` and reads the stamps of the five vertices. */
  method RunSample() returns (discovery: seq<int>, finish: seq<int>)
    ensures discovery == [1, 2, 6, 3, 7] && finish == [10, 5, 9, 4, 8]
  {
    var s := new MatrixSearch();
    s.ClearMatrix();
    s.adj[0, 1] := 1;
    s.adj[0, 2] := 1;
    s.adj[1, 3] := 1;
    s.adj[2, 4] := 1;
    s.ClearVisited();
    assert s.Matrix() == SampleMatrix by {
      assert s.Matrix()[0] == SampleMatrix[0];
      assert s.Matrix()[1] == SampleMatrix[1];
      assert s.Matrix()[2] == SampleMatrix[2];
      assert s.Matrix()[3] == SampleMatrix[3];
      assert s.Matrix()[4] == SampleMatrix[4];
    }
    assert s.State(5) == Init(5);
    s.Dfs(0, 5);
    MatrixRun();
    discovery := s.discovery[..5];
    finish := s.finish[..5];
  }
}
