// Model of problem_1/problem_1_DemoCode.c: a directed "follows" graph kept as
// head-inserted adjacency lists, a recursive DFS that records discovery and
// finish timestamps in global arrays, and the analysis of those timestamps.

module SocialDfs {
  import opened DfsSpec

  /** MAX_USERS: the capacity of the global timestamp arrays. */
  const MaxUsers := 100

  /** The graph of `createGraph`/`addEdge`: adj[u] is u's list, newest edge first. */
  class Graph {
    var numUsers: int
    var adj: seq<seq<int>>

    ghost predicate Valid()
      reads this
    {
      0 <= numUsers && |adj| == numUsers && ValidGraph(adj)
    }

    /** `createGraph`: numUsers empty lists. */
    constructor (numUsers: int)
      requires 0 <= numUsers
      ensures Valid() && this.numUsers == numUsers
      ensures forall u :: 0 <= u < numUsers ==> adj[u] == []
    {
      this.numUsers := numUsers;
      var lists: seq<seq<int>> := [];
      for i := 0 to numUsers
        invariant |lists| == i
        invariant forall u :: 0 <= u < i ==> lists[u] == []
      {
        lists := lists + [[]];
      }
      adj := lists;
    }

    /** `addEdge`: src now follows dest; the new entry goes to the head of src's list. */
    method AddEdge(src: int, dest: int)
      requires Valid() && 0 <= src < numUsers && 0 <= dest < numUsers
      modifies this
      ensures Valid() && numUsers == old(numUsers)
      ensures adj == old(adj)[src := [dest] + old(adj)[src]]
    {
      adj := adj[src := [dest] + adj[src]];
    }
  }

  /** The global arrays `visited`, `discovery`, `finish` and the clock `time_counter`. */
  class Recorder {
    const visited: array<bool>
    const discovery: array<int>
    const finish: array<int>
    var timeCounter: int

    ghost predicate Valid()
      reads this
    {
      visited.Length == MaxUsers && discovery.Length == MaxUsers && finish.Length == MaxUsers
      && discovery != finish
    }

    /** The first n entries of the globals, as a specification state. */
    ghost function State(n: int): DfsState
      requires Valid() && 0 <= n <= MaxUsers
      reads this, visited, discovery, finish
    {
      DfsState(visited[..n], discovery[..n], finish[..n], timeCounter)
    }

    /** C globals start zeroed. */
    constructor ()
      ensures Valid() && timeCounter == 0 && fresh(visited) && fresh(discovery) && fresh(finish)
      ensures forall v :: 0 <= v < MaxUsers ==> !visited[v] && discovery[v] == 0 && finish[v] == 0
    {
      visited := new bool[MaxUsers](_ => false);
      discovery := new int[MaxUsers](_ => 0);
      finish := new int[MaxUsers](_ => 0);
      timeCounter := 0;
    }

    /** `initialize`: clears the first numUsers entries and the clock. */
    method Initialize(numUsers: int)
      requires Valid() && 0 <= numUsers <= MaxUsers
      modifies this, visited, discovery, finish
      ensures Valid() && State(numUsers) == Init(numUsers)
      ensures visited[numUsers..] == old(visited[numUsers..])
      ensures discovery[numUsers..] == old(discovery[numUsers..])
      ensures finish[numUsers..] == old(finish[numUsers..])
    {
      for i := 0 to numUsers
        invariant forall v :: 0 <= v < i ==> !visited[v] && discovery[v] == 0 && finish[v] == 0
        invariant visited[numUsers..] == old(visited[numUsers..])
        invariant discovery[numUsers..] == old(discovery[numUsers..])
        invariant finish[numUsers..] == old(finish[numUsers..])
      {
        visited[i] := false;
        discovery[i] := 0;
        finish[i] := 0;
      }
      timeCounter := 0;
      assert State(numUsers).visited == Init(numUsers).visited;
      assert State(numUsers).discovery == Init(numUsers).discovery;
      assert State(numUsers).finish == Init(numUsers).finish;
    }

    /**
     * `DFS`: stamps user's discovery, explores its list from the head, calling
     * itself on unvisited entries, then stamps its finish. The result is the
     * specification's DFS of the graph's lists.
     */
    method Dfs(graph: Graph, user: int)
      requires Valid() && graph.Valid() && graph.numUsers <= MaxUsers
      requires 0 <= user < graph.numUsers && !visited[user]
      modifies this, visited, discovery, finish
      ensures Valid()
      ensures State(graph.numUsers) == DfsSpec.Dfs(graph.adj, user, old(State(graph.numUsers)))
      ensures visited[graph.numUsers..] == old(visited[graph.numUsers..])
      ensures discovery[graph.numUsers..] == old(discovery[graph.numUsers..])
      ensures finish[graph.numUsers..] == old(finish[graph.numUsers..])
      decreases Unseen(State(graph.numUsers))
    {
      ghost var n := graph.numUsers;
      ghost var g := graph.adj;
      ghost var st0 := State(n);
      visited[user] := true;
      timeCounter := timeCounter + 1;
      discovery[user] := timeCounter;
      ghost var st1 := State(n);
      assert st1 == Discover(st0, user);
      var list := graph.adj[user];
      var i := 0;
      while i < |list|
        invariant 0 <= i <= |list|
        invariant Valid() && Sized(State(n), n)
        invariant VisitedGrow(st1, State(n))
        invariant DfsList(g, list[i..], State(n)) == DfsList(g, list, st1)
        invariant visited[n..] == old(visited[n..]) && discovery[n..] == old(discovery[n..])
        invariant finish[n..] == old(finish[n..])
      {
        var adjUser := list[i];
        ghost var pre := State(n);
        DfsListStep(g, list, i, pre);
        if !visited[adjUser] {
          assert Unseen(pre) < Unseen(st0) by {
            UnseenShrinks(st0, pre, user);
          }
          Dfs(graph, adjUser);
          assert VisitedGrow(st1, State(n)) by {
            assert VisitedGrow(pre, State(n));
          }
        }
        i := i + 1;
      }
      ghost var st2 := State(n);
      assert st2 == DfsList(g, g[user], st1);
      timeCounter := timeCounter + 1;
      finish[user] := timeCounter;
      assert State(n) == Finish(st2, user);
    }

    /**
     * `analyzeInfluentialUsers` over the first numUsers entries: the visited
     * user with the largest discovery stamp above 0 (first one on ties), the
     * visited user with the smallest finish - discovery below 999 (first one on
     * ties), and the visited users whose duration is exactly 1, in index order.
     */
    method AnalyzeInfluentialUsers(numUsers: int)
      returns (deepestUser: int, maxDiscovery: int, mostInfluential: int, minDuration: int, leaves: seq<int>)
      requires Valid() && 0 <= numUsers <= MaxUsers
      ensures deepestUser == -1 ==> (maxDiscovery == 0
        && forall v :: 0 <= v < numUsers && visited[v] ==> discovery[v] <= 0)
      ensures deepestUser != -1 ==> (0 <= deepestUser < numUsers && visited[deepestUser]
        && maxDiscovery == discovery[deepestUser] > 0
        && (forall v :: 0 <= v < numUsers && visited[v] ==> discovery[v] <= maxDiscovery)
        && (forall v :: 0 <= v < deepestUser && visited[v] ==> discovery[v] < maxDiscovery))
      ensures mostInfluential == -1 ==> (minDuration == 999
        && forall v :: 0 <= v < numUsers && visited[v] ==> finish[v] - discovery[v] >= 999)
      ensures mostInfluential != -1 ==> (0 <= mostInfluential < numUsers && visited[mostInfluential]
        && minDuration == finish[mostInfluential] - discovery[mostInfluential] < 999
        && (forall v :: 0 <= v < numUsers && visited[v] ==> finish[v] - discovery[v] >= minDuration)
        && (forall v :: 0 <= v < mostInfluential && visited[v] ==> finish[v] - discovery[v] > minDuration))
      ensures forall v :: v in leaves <==> 0 <= v < numUsers && visited[v] && finish[v] - discovery[v] == 1
      ensures forall i, j :: 0 <= i < j < |leaves| ==> leaves[i] < leaves[j]
    {
      maxDiscovery := 0;
      deepestUser := -1;
      for i := 0 to numUsers
        invariant deepestUser == -1 ==> (maxDiscovery == 0
          && forall v :: 0 <= v < i && visited[v] ==> discovery[v] <= 0)
        invariant deepestUser != -1 ==> (0 <= deepestUser < i && visited[deepestUser]
          && maxDiscovery == discovery[deepestUser] > 0
          && (forall v :: 0 <= v < i && visited[v] ==> discovery[v] <= maxDiscovery)
          && (forall v :: 0 <= v < deepestUser && visited[v] ==> discovery[v] < maxDiscovery))
      {
        if visited[i] && discovery[i] > maxDiscovery {
          maxDiscovery := discovery[i];
          deepestUser := i;
        }
      }
      minDuration := 999;
      mostInfluential := -1;
      for i := 0 to numUsers
        invariant mostInfluential == -1 ==> (minDuration == 999
          && forall v :: 0 <= v < i && visited[v] ==> finish[v] - discovery[v] >= 999)
        invariant mostInfluential != -1 ==> (0 <= mostInfluential < i && visited[mostInfluential]
          && minDuration == finish[mostInfluential] - discovery[mostInfluential] < 999
          && (forall v :: 0 <= v < i && visited[v] ==> finish[v] - discovery[v] >= minDuration)
          && (forall v :: 0 <= v < mostInfluential && visited[v] ==> finish[v] - discovery[v] > minDuration))
      {
        if visited[i] {
          var duration := finish[i] - discovery[i];
          if duration < minDuration {
            minDuration := duration;
            mostInfluential := i;
          }
        }
      }
      leaves := [];
      for i := 0 to numUsers
        invariant forall v :: v in leaves <==> 0 <= v < i && visited[v] && finish[v] - discovery[v] == 1
        invariant forall a, b :: 0 <= a < b < |leaves| ==> leaves[a] < leaves[b]
        invariant forall a :: 0 <= a < |leaves| ==> leaves[a] < i
      {
        if visited[i] && finish[i] - discovery[i] == 1 {
          leaves := leaves + [i];
        }
      }
    }
  }
}
