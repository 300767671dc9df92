// The fixed run of problem_1/problem_1_DemoCode.c `main`: five users, four
// follow edges, a DFS from user 0 and the analysis of its stamps.

module SocialScenario {
  import opened DfsSpec
  import opened SocialDfs

  /** The lists `main` builds: each user's newest follow first. */
  const FollowGraph: seq<seq<int>> := [[2, 1], [3], [4], [], []]

  /** DFS(2) after DFS(0) has begun: explores 4, a leaf. */
  lemma FollowVisit2()
    ensures ValidGraph(FollowGraph)
    ensures Dfs(FollowGraph, 2, DfsState([true, false, false, false, false], [1, 0, 0, 0, 0], [0, 0, 0, 0, 0], 1))
         == DfsState([true, false, true, false, true], [1, 0, 2, 0, 3], [0, 0, 5, 0, 4], 5)
  {
    var g := FollowGraph;
    assert ValidGraph(g);
    var a := DfsState([true, false, false, false, false], [1, 0, 0, 0, 0], [0, 0, 0, 0, 0], 1);
    var b := DfsState([true, false, true, false, false], [1, 0, 2, 0, 0], [0, 0, 0, 0, 0], 2);
    var c := DfsState([true, false, true, false, true], [1, 0, 2, 0, 3], [0, 0, 0, 0, 0], 3);
    var d := DfsState([true, false, true, false, true], [1, 0, 2, 0, 3], [0, 0, 0, 0, 4], 4);
    assert Discover(a, 2) == b;
    assert Discover(b, 4) == c;
    assert Finish(c, 4) == d;
    assert Dfs(g, 4, b) == d by {
      assert DfsList(g, g[4], c) == c;
    }
    assert DfsList(g, g[2], b) == d by {
      assert DfsList(g, g[2][1..], d) == d;
    }
  }

  /** DFS(1) after 2 and 4 are finished: explores 3, a leaf. */
  lemma FollowVisit1()
    ensures ValidGraph(FollowGraph)
    ensures Dfs(FollowGraph, 1, DfsState([true, false, true, false, true], [1, 0, 2, 0, 3], [0, 0, 5, 0, 4], 5))
         == DfsState([true, true, true, true, true], [1, 6, 2, 7, 3], [0, 9, 5, 8, 4], 9)
  {
    var g := FollowGraph;
    assert ValidGraph(g);
    var e := DfsState([true, false, true, false, true], [1, 0, 2, 0, 3], [0, 0, 5, 0, 4], 5);
    var f := DfsState([true, true, true, false, true], [1, 6, 2, 0, 3], [0, 0, 5, 0, 4], 6);
    var h := DfsState([true, true, true, true, true], [1, 6, 2, 7, 3], [0, 0, 5, 0, 4], 7);
    var j := DfsState([true, true, true, true, true], [1, 6, 2, 7, 3], [0, 0, 5, 8, 4], 8);
    assert Discover(e, 1) == f;
    assert Discover(f, 3) == h;
    assert Finish(h, 3) == j;
    assert Dfs(g, 3, f) == j by {
      assert DfsList(g, g[3], h) == h;
    }
    assert DfsList(g, g[1], f) == j by {
      assert DfsList(g, g[1][1..], j) == j;
    }
  }

  /**
   * The run of the sample: neighbours are tried newest first, so 0 explores 2
   * (then 4) before 1 (then 3).
   */
  lemma FollowRun()
    ensures ValidGraph(FollowGraph)
    ensures DfsFrom(FollowGraph, 0)
         == DfsState([true, true, true, true, true], [1, 6, 2, 7, 3], [10, 9, 5, 8, 4], 10)
  {
    var g := FollowGraph;
    FollowVisit2();
    FollowVisit1();
    var a := DfsState([true, false, false, false, false], [1, 0, 0, 0, 0], [0, 0, 0, 0, 0], 1);
    var e := DfsState([true, false, true, false, true], [1, 0, 2, 0, 3], [0, 0, 5, 0, 4], 5);
    var i := DfsState([true, true, true, true, true], [1, 6, 2, 7, 3], [0, 9, 5, 8, 4], 9);
    assert Discover(Init(5), 0) == a;
    assert DfsList(g, g[0], a) == i by {
      assert DfsList(g, g[0], a) == DfsList(g, g[0][1..], e);
      assert DfsList(g, g[0][1..], e) == DfsList(g, g[0][2..], i);
      assert DfsList(g, g[0][2..], i) == i;
    }
  }

  /** The graph `main` builds: edges 0->1, 0->2, 1->3, 2->4 added in that order. */
  method BuildSample() returns (graph: Graph)
    ensures fresh(graph) && graph.Valid() && graph.numUsers == 5
    ensures graph.adj == FollowGraph
  {
    graph := new Graph(5);
    assert graph.adj == [[], [], [], [], []];
    graph.AddEdge(0, 1);
    assert [1] + [] == [1];
    assert graph.adj == [[1], [], [], [], []];
    graph.AddEdge(0, 2);
    assert [2] + [1] == [2, 1];
    assert graph.adj == [[2, 1], [], [], [], []];
    graph.AddEdge(1, 3);
    assert [3] + [] == [3];
    assert graph.adj == [[2, 1], [3], [], [], []];
    graph.AddEdge(2, 4);
    assert [4] + [] == [4];
  }

  /** `initialize(5)` and `DFS(graph, 0)` on the sample graph. */
  method SampleDfs() returns (rec: Recorder)
    ensures fresh(rec) && rec.Valid()
    ensures rec.State(5) == DfsState([true, true, true, true, true], [1, 6, 2, 7, 3], [10, 9, 5, 8, 4], 10)
  {
    var graph := BuildSample();
    rec := new Recorder();
    rec.Initialize(5);
    rec.Dfs(graph, 0);
    FollowRun();
  }

  /**
   * `main`: a DFS from user 0 over the sample graph and the analysis of its
   * stamps: user 3 is discovered last, users 3 and 4 are the leaves, and 3 is
   * the first user of shortest duration.
   */
  method RunSample() returns (discovery: seq<int>, finish: seq<int>, deepestUser: int, maxDiscovery: int,
                              mostInfluential: int, minDuration: int, leaves: seq<int>)
    ensures discovery == [1, 6, 2, 7, 3] && finish == [10, 9, 5, 8, 4]
    ensures deepestUser == 3 && maxDiscovery == 7
    ensures mostInfluential == 3 && minDuration == 1
    ensures leaves == [3, 4]
  {
    var rec := SampleDfs();
    assert rec.visited[..5] == [true, true, true, true, true];
    discovery := rec.discovery[..5];
    finish := rec.finish[..5];
    deepestUser, maxDiscovery, mostInfluential, minDuration, leaves := rec.AnalyzeInfluentialUsers(5);
    assert forall v :: 0 <= v < 5 ==> rec.visited[v] && rec.discovery[v] == discovery[v] && rec.finish[v] == finish[v];
    assert rec.discovery[0] > 0;
    assert rec.finish[3] - rec.discovery[3] == 1;
    IncreasingPair(leaves, 3, 4);
  }

  /** A strictly increasing sequence holding exactly a and b, a < b, is [a, b]. */
  lemma IncreasingPair(s: seq<int>, a: int, b: int)
    requires a < b
    requires forall v :: v in s <==> v == a || v == b
    requires forall i, j :: 0 <= i < j < |s| ==> s[i] < s[j]
    ensures s == [a, b]
  {
    assert a in s && b in s;
    var i :| 0 <= i < |s| && s[i] == a;
    var j :| 0 <= j < |s| && s[j] == b;
    assert i < j;
    assert s[0] in s && s[|s| - 1] in s && s[1] in s;
    assert i == 0 && j == |s| - 1;
    assert j == 1;
  }
}
