// Functional specification of depth-first search with discovery and finish
// timestamps, shared by the adjacency-list program (problem_1/problem_1_DemoCode.c)
// and the adjacency-matrix program (problem_1/problem_1.c). A graph is given by
// its successor lists in exploration order: g[u] lists the neighbours of u in
// the order the program tries them.

module DfsSpec {

  /** Every successor names a vertex of the graph. */
  ghost predicate ValidGraph(g: seq<seq<int>>) {
    forall u, i :: 0 <= u < |g| && 0 <= i < |g[u]| ==> 0 <= g[u][i] < |g|
  }

  /** The global arrays and the clock of the programs. */
  datatype DfsState = DfsState(visited: seq<bool>, discovery: seq<int>, finish: seq<int>, time: int)

  predicate Sized(st: DfsState, n: int) {
    |st.visited| == n && |st.discovery| == n && |st.finish| == n
  }

  /** State after `initialize`: nothing visited, every stamp and the clock 0. */
  function Init(n: nat): (st: DfsState)
    ensures Sized(st, n) && st.time == 0
    ensures forall v :: 0 <= v < n ==> !st.visited[v] && st.discovery[v] == 0 && st.finish[v] == 0
  {
    DfsState(seq(n, _ => false), seq(n, _ => 0), seq(n, _ => 0), 0)
  }

  function Seen(st: DfsState): set<int> {
    set v | 0 <= v < |st.visited| && st.visited[v]
  }

  function Unseen(st: DfsState): set<int> {
    set v | 0 <= v < |st.visited| && !st.visited[v]
  }

  /** Every vertex visited in a is visited in b. */
  ghost predicate VisitedGrow(a: DfsState, b: DfsState) {
    |a.visited| == |b.visited| && forall v :: 0 <= v < |a.visited| && a.visited[v] ==> b.visited[v]
  }

  /** Visiting more vertices never adds to the set of unvisited ones. */
  lemma UnseenGrow(a: DfsState, b: DfsState)
    requires VisitedGrow(a, b)
    ensures Unseen(b) <= Unseen(a)
  {
  }

  /** Visiting one more vertex shrinks the set of unvisited ones. */
  lemma UnseenShrinks(a: DfsState, b: DfsState, u: int)
    requires |a.visited| == |b.visited| && 0 <= u < |a.visited|
    requires !a.visited[u] && b.visited[u]
    requires forall v :: 0 <= v < |a.visited| && a.visited[v] ==> b.visited[v]
    ensures Unseen(b) < Unseen(a)
  {
    assert u in Unseen(a) - Unseen(b);
  }

  /** Entering DFS(u): u is marked visited and discovered at the next tick. */
  function Discover(st: DfsState, u: int): DfsState
    requires 0 <= u < |st.visited| && 0 <= u < |st.discovery|
  {
    DfsState(st.visited[u := true], st.discovery[u := st.time + 1], st.finish, st.time + 1)
  }

  /** Leaving DFS(u): u is finished at the next tick. */
  function Finish(st: DfsState, u: int): DfsState
    requires 0 <= u < |st.finish|
  {
    DfsState(st.visited, st.discovery, st.finish[u := st.time + 1], st.time + 1)
  }

  /**
   * DFS(u): mark u visited with the next timestamp, explore its successors in
   * order, then give u the next timestamp as its finish time.
   */
  function Dfs(g: seq<seq<int>>, u: int, st: DfsState): (r: DfsState)
    requires ValidGraph(g) && Sized(st, |g|) && 0 <= u < |g| && !st.visited[u]
    ensures Sized(r, |g|) && r.visited[u]
    ensures forall v :: 0 <= v < |g| && st.visited[v] ==> r.visited[v]
    decreases Unseen(st), 0, 0
  {
    var st1 := Discover(st, u);
    UnseenShrinks(st, st1, u);
    var st2 := DfsList(g, g[u], st1);
    Finish(st2, u)
  }

  /** The loop over a successor list: unvisited entries are explored in turn. */
  function DfsList(g: seq<seq<int>>, todo: seq<int>, st: DfsState): (r: DfsState)
    requires ValidGraph(g) && Sized(st, |g|)
    requires forall i :: 0 <= i < |todo| ==> 0 <= todo[i] < |g|
    ensures Sized(r, |g|)
    ensures forall v :: 0 <= v < |g| && st.visited[v] ==> r.visited[v]
    decreases Unseen(st), 1, |todo|
  {
    if todo == [] then st
    else if st.visited[todo[0]] then DfsList(g, todo[1..], st)
    else
      var st1 := Dfs(g, todo[0], st);
      UnseenShrinks(st, st1, todo[0]);
      DfsList(g, todo[1..], st1)
  }

  /** One turn of the loop over a successor list: the entry at i is skipped or explored. */
  lemma DfsListStep(g: seq<seq<int>>, todo: seq<int>, i: int, st: DfsState)
    requires ValidGraph(g) && Sized(st, |g|) && 0 <= i < |todo|
    requires forall j :: 0 <= j < |todo| ==> 0 <= todo[j] < |g|
    ensures st.visited[todo[i]] ==> DfsList(g, todo[i..], st) == DfsList(g, todo[i + 1..], st)
    ensures !st.visited[todo[i]] ==> DfsList(g, todo[i..], st) == DfsList(g, todo[i + 1..], Dfs(g, todo[i], st))
  {
    assert todo[i..][0] == todo[i] && todo[i..][1..] == todo[i + 1..];
  }

  /** A DFS from s over a freshly initialised state. */
  function DfsFrom(g: seq<seq<int>>, s: int): (r: DfsState)
    requires ValidGraph(g) && 0 <= s < |g|
    ensures Sized(r, |g|) && r.visited[s]
  {
    Dfs(g, s, Init(|g|))
  }

  /**
   * How a state r produced from st relates to it: the clock only advances,
   * vertices visited before and vertices still unvisited keep their stamps,
   * and every newly visited vertex was discovered and finished in (st.time, r.time].
   */
  ghost predicate Grows(st: DfsState, r: DfsState) {
    |st.visited| == |r.visited| == |st.discovery| == |r.discovery| == |st.finish| == |r.finish|
    && st.time <= r.time
    && (forall v :: 0 <= v < |st.visited| && st.visited[v] ==> r.visited[v])
    && (forall v :: 0 <= v < |st.visited| && (st.visited[v] || !r.visited[v]) ==>
          r.discovery[v] == st.discovery[v] && r.finish[v] == st.finish[v])
    && (forall v :: 0 <= v < |st.visited| && !st.visited[v] && r.visited[v] ==>
          st.time < r.discovery[v] < r.finish[v] <= r.time)
  }

  lemma GrowsTrans(a: DfsState, b: DfsState, c: DfsState)
    requires Grows(a, b) && Grows(b, c)
    ensures Grows(a, c)
  {
  }

  /** DFS(u) discovers u first and finishes it last. */
  lemma {:induction false} DfsGrows(g: seq<seq<int>>, u: int, st: DfsState)
    requires ValidGraph(g) && Sized(st, |g|) && 0 <= u < |g| && !st.visited[u]
    ensures Grows(st, Dfs(g, u, st))
    ensures Dfs(g, u, st).discovery[u] == st.time + 1
    ensures Dfs(g, u, st).finish[u] == Dfs(g, u, st).time
    decreases Unseen(st), 0, 0
  {
    var st1 := Discover(st, u);
    UnseenShrinks(st, st1, u);
    DfsListGrows(g, g[u], st1);
  }

  lemma {:induction false} DfsListGrows(g: seq<seq<int>>, todo: seq<int>, st: DfsState)
    requires ValidGraph(g) && Sized(st, |g|)
    requires forall i :: 0 <= i < |todo| ==> 0 <= todo[i] < |g|
    ensures Grows(st, DfsList(g, todo, st))
    decreases Unseen(st), 1, |todo|
  {
    if todo == [] {
    } else if st.visited[todo[0]] {
      DfsListGrows(g, todo[1..], st);
    } else {
      var st1 := Dfs(g, todo[0], st);
      DfsGrows(g, todo[0], st);
      UnseenShrinks(st, st1, todo[0]);
      DfsListGrows(g, todo[1..], st1);
      GrowsTrans(st, st1, DfsList(g, todo[1..], st1));
    }
  }

  /**
   * Stamps agree with the visited flags: an unvisited vertex has both stamps
   * 0, a visited one was discovered in 1..time, and a finished one (finish
   * stamp not 0) was finished after its discovery and by time.
   */
  ghost predicate Consistent(st: DfsState) {
    |st.discovery| == |st.finish| == |st.visited|
    && st.time >= 0
    && forall v :: 0 <= v < |st.visited| ==>
         (!st.visited[v] ==> st.discovery[v] == 0 && st.finish[v] == 0)
         && (st.visited[v] ==> 1 <= st.discovery[v] <= st.time)
         && (st.finish[v] != 0 ==> st.discovery[v] < st.finish[v] <= st.time)
  }

  lemma ConsistentGrows(st: DfsState, r: DfsState)
    requires Consistent(st) && Grows(st, r)
    ensures Consistent(r)
  {
  }

  lemma InitConsistent(n: nat)
    ensures Consistent(Init(n)) && Seen(Init(n)) == {}
  {
  }

  lemma SeenMono(a: DfsState, b: DfsState)
    requires |a.visited| == |b.visited|
    requires forall v :: 0 <= v < |a.visited| && a.visited[v] ==> b.visited[v]
    ensures Seen(a) <= Seen(b)
  {
  }

  /** Marking one unvisited vertex adds exactly that vertex to the visited set. */
  lemma SeenMark(st: DfsState, u: int)
    requires 0 <= u < |st.visited| && !st.visited[u]
    ensures Seen(st.(visited := st.visited[u := true])) - Seen(st) == {u}
    ensures Seen(st) <= Seen(st.(visited := st.visited[u := true]))
  {
  }

  lemma DiffChain(a: set<int>, b: set<int>, c: set<int>)
    requires a <= b <= c
    ensures |c - a| == |c - b| + |b - a|
  {
    assert c - a == (c - b) + (b - a);
    assert (c - b) !! (b - a);
  }

  /** Each DFS call spends exactly two clock ticks per vertex it visits. */
  lemma {:induction false} DfsCount(g: seq<seq<int>>, u: int, st: DfsState)
    requires ValidGraph(g) && Sized(st, |g|) && 0 <= u < |g| && !st.visited[u]
    ensures Dfs(g, u, st).time == st.time + 2 * |Seen(Dfs(g, u, st)) - Seen(st)|
    decreases Unseen(st), 0, 0
  {
    var st1 := Discover(st, u);
    UnseenShrinks(st, st1, u);
    var st2 := DfsList(g, g[u], st1);
    assert st2.time == st1.time + 2 * |Seen(st2) - Seen(st1)| by {
      DfsListCount(g, g[u], st1);
    }
    assert Seen(st) <= Seen(st1) && |Seen(st1) - Seen(st)| == 1 by {
      SeenMark(st, u);
      assert Seen(st1) == Seen(st.(visited := st.visited[u := true]));
    }
    assert Seen(st1) <= Seen(st2) by {
      SeenMono(st1, st2);
    }
    CountStep(Seen(st), Seen(st1), Seen(st2), st.time, st2.time);
    assert Dfs(g, u, st).visited == st2.visited && Dfs(g, u, st).time == st2.time + 1;
  }

  /** Clock arithmetic of DfsCount: one vertex marked, then the list's vertices. */
  lemma CountStep(a: set<int>, b: set<int>, c: set<int>, t0: int, t2: int)
    requires a <= b <= c && |b - a| == 1
    requires t2 == t0 + 1 + 2 * |c - b|
    ensures t2 + 1 == t0 + 2 * |c - a|
  {
    DiffChain(a, b, c);
  }

  lemma {:induction false} DfsListCount(g: seq<seq<int>>, todo: seq<int>, st: DfsState)
    requires ValidGraph(g) && Sized(st, |g|)
    requires forall i :: 0 <= i < |todo| ==> 0 <= todo[i] < |g|
    ensures DfsList(g, todo, st).time == st.time + 2 * |Seen(DfsList(g, todo, st)) - Seen(st)|
    decreases Unseen(st), 1, |todo|
  {
    if todo == [] {
    } else if st.visited[todo[0]] {
      DfsListCount(g, todo[1..], st);
    } else {
      var st1 := Dfs(g, todo[0], st);
      var r := DfsList(g, todo[1..], st1);
      DfsCount(g, todo[0], st);
      UnseenShrinks(st, st1, todo[0]);
      DfsListCount(g, todo[1..], st1);
      SeenMono(st, st1);
      SeenMono(st1, r);
      DiffChain(Seen(st), Seen(st1), Seen(r));
    }
  }

  /** Every finished vertex has all its successors visited. */
  ghost predicate Closed(g: seq<seq<int>>, st: DfsState)
    requires Sized(st, |g|)
  {
    forall v, i :: 0 <= v < |g| && st.finish[v] != 0 && 0 <= i < |g[v]| && 0 <= g[v][i] < |g| ==>
      st.visited[g[v][i]]
  }

  /** DFS(u) leaves every successor of u visited and keeps finished vertices closed. */
  lemma {:induction false} DfsClosed(g: seq<seq<int>>, u: int, st: DfsState)
    requires ValidGraph(g) && Sized(st, |g|) && 0 <= u < |g| && !st.visited[u]
    requires Consistent(st) && Closed(g, st)
    ensures Closed(g, Dfs(g, u, st))
    ensures forall i :: 0 <= i < |g[u]| ==> Dfs(g, u, st).visited[g[u][i]]
    decreases Unseen(st), 0, 0
  {
    var st1 := Discover(st, u);
    UnseenShrinks(st, st1, u);
    assert Consistent(st1);
    DfsListClosed(g, g[u], st1);
  }

  lemma {:induction false} DfsListClosed(g: seq<seq<int>>, todo: seq<int>, st: DfsState)
    requires ValidGraph(g) && Sized(st, |g|)
    requires forall i :: 0 <= i < |todo| ==> 0 <= todo[i] < |g|
    requires Consistent(st) && Closed(g, st)
    ensures Closed(g, DfsList(g, todo, st))
    ensures forall i :: 0 <= i < |todo| ==> DfsList(g, todo, st).visited[todo[i]]
    decreases Unseen(st), 1, |todo|
  {
    if todo == [] {
    } else if st.visited[todo[0]] {
      DfsListClosed(g, todo[1..], st);
      DfsListGrows(g, todo[1..], st);
    } else {
      var st1 := Dfs(g, todo[0], st);
      DfsClosed(g, todo[0], st);
      DfsGrows(g, todo[0], st);
      ConsistentGrows(st, st1);
      UnseenShrinks(st, st1, todo[0]);
      DfsListClosed(g, todo[1..], st1);
      DfsListGrows(g, todo[1..], st1);
    }
  }

  /** The vertices of p form a path of g. */
  ghost predicate IsPath(g: seq<seq<int>>, p: seq<int>) {
    |p| >= 1
    && (forall i :: 0 <= i < |p| ==> 0 <= p[i] < |g|)
    && forall i :: 0 <= i < |p| - 1 ==> p[i + 1] in g[p[i]]
  }

  /** v can be reached from s along directed edges (in zero or more steps). */
  ghost predicate Reachable(g: seq<seq<int>>, s: int, v: int) {
    exists p :: IsPath(g, p) && p[0] == s && p[|p| - 1] == v
  }

  lemma ReachSelf(g: seq<seq<int>>, s: int)
    requires 0 <= s < |g|
    ensures Reachable(g, s, s)
  {
    assert IsPath(g, [s]);
  }

  lemma ReachStep(g: seq<seq<int>>, u: int, w: int, v: int)
    requires 0 <= u < |g| && w in g[u] && Reachable(g, w, v)
    ensures Reachable(g, u, v)
  {
    var p :| IsPath(g, p) && p[0] == w && p[|p| - 1] == v;
    var q := [u] + p;
    assert IsPath(g, q);
  }

  /** Every vertex DFS(u) visits is reachable from u. */
  lemma {:induction false} DfsSound(g: seq<seq<int>>, u: int, st: DfsState)
    requires ValidGraph(g) && Sized(st, |g|) && 0 <= u < |g| && !st.visited[u]
    ensures forall v :: 0 <= v < |g| && !st.visited[v] && Dfs(g, u, st).visited[v] ==> Reachable(g, u, v)
    decreases Unseen(st), 0, 0
  {
    var st1 := Discover(st, u);
    UnseenShrinks(st, st1, u);
    DfsListSound(g, g[u], st1);
    forall v | 0 <= v < |g| && !st.visited[v] && Dfs(g, u, st).visited[v] ensures Reachable(g, u, v) {
      if v == u {
        ReachSelf(g, u);
      } else {
        assert !st1.visited[v] && DfsList(g, g[u], st1).visited[v];
        var i :| 0 <= i < |g[u]| && Reachable(g, g[u][i], v);
        ReachStep(g, u, g[u][i], v);
      }
    }
  }

  lemma {:induction false} DfsListSound(g: seq<seq<int>>, todo: seq<int>, st: DfsState)
    requires ValidGraph(g) && Sized(st, |g|)
    requires forall i :: 0 <= i < |todo| ==> 0 <= todo[i] < |g|
    ensures forall v :: 0 <= v < |g| && !st.visited[v] && DfsList(g, todo, st).visited[v] ==>
      exists i :: 0 <= i < |todo| && Reachable(g, todo[i], v)
    decreases Unseen(st), 1, |todo|
  {
    if todo == [] {
    } else if st.visited[todo[0]] {
      DfsListSound(g, todo[1..], st);
      forall v | 0 <= v < |g| && !st.visited[v] && DfsList(g, todo, st).visited[v]
        ensures exists i :: 0 <= i < |todo| && Reachable(g, todo[i], v)
      {
        var i :| 0 <= i < |todo[1..]| && Reachable(g, todo[1..][i], v);
        assert todo[1..][i] == todo[i + 1];
      }
    } else {
      var st1 := Dfs(g, todo[0], st);
      DfsSound(g, todo[0], st);
      UnseenShrinks(st, st1, todo[0]);
      DfsListSound(g, todo[1..], st1);
      forall v | 0 <= v < |g| && !st.visited[v] && DfsList(g, todo, st).visited[v]
        ensures exists i :: 0 <= i < |todo| && Reachable(g, todo[i], v)
      {
        if st1.visited[v] {
          assert Reachable(g, todo[0], v);
        } else {
          var i :| 0 <= i < |todo[1..]| && Reachable(g, todo[1..][i], v);
          assert todo[1..][i] == todo[i + 1];
        }
      }
    }
  }

  /** The [discovery, finish] intervals of two finished vertices are disjoint or nested. */
  ghost predicate Parenthesized(st: DfsState)
    requires |st.discovery| == |st.finish|
  {
    forall v, w :: 0 <= v < |st.finish| && 0 <= w < |st.finish| && v != w && st.finish[v] != 0 && st.finish[w] != 0 ==>
      st.finish[v] < st.discovery[w] || st.finish[w] < st.discovery[v]
      || (st.discovery[v] < st.discovery[w] && st.finish[w] < st.finish[v])
      || (st.discovery[w] < st.discovery[v] && st.finish[v] < st.finish[w])
  }

  /** Finished vertices without successors were finished one tick after discovery. */
  ghost predicate LeavesTight(g: seq<seq<int>>, st: DfsState)
    requires Sized(st, |g|)
  {
    forall v :: 0 <= v < |g| && st.finish[v] != 0 && g[v] == [] ==> st.finish[v] == st.discovery[v] + 1
  }

  /** Finishing u after its successors keeps the intervals parenthesized. */
  lemma FinishNested(g: seq<seq<int>>, st: DfsState, st1: DfsState, st2: DfsState, r: DfsState, u: int)
    requires Sized(st, |g|) && Consistent(st) && 0 <= u < |g| && !st.visited[u]
    requires Parenthesized(st) && LeavesTight(g, st)
    requires st1 == Discover(st, u)
    requires Grows(st1, st2) && Parenthesized(st2) && LeavesTight(g, st2)
    requires g[u] == [] ==> st2 == st1
    requires r == Finish(st2, u)
    ensures Parenthesized(r) && LeavesTight(g, r)
  {
    forall v | 0 <= v < |r.finish| && v != u && r.finish[v] != 0
      ensures r.finish[v] < r.discovery[u]
        || (r.discovery[u] < r.discovery[v] && r.finish[v] < r.finish[u])
    {
      if st1.visited[v] {
        assert r.finish[v] == st.finish[v] <= st.time;
      }
    }
  }

  lemma {:induction false} DfsNested(g: seq<seq<int>>, u: int, st: DfsState)
    requires ValidGraph(g) && Sized(st, |g|) && 0 <= u < |g| && !st.visited[u]
    requires Consistent(st) && Parenthesized(st) && LeavesTight(g, st)
    ensures Parenthesized(Dfs(g, u, st)) && LeavesTight(g, Dfs(g, u, st))
    decreases Unseen(st), 0, 0
  {
    var st1 := Discover(st, u);
    UnseenShrinks(st, st1, u);
    assert Consistent(st1);
    var st2 := DfsList(g, g[u], st1);
    DfsListNested(g, g[u], st1);
    DfsListGrows(g, g[u], st1);
    FinishNested(g, st, st1, st2, Dfs(g, u, st), u);
  }

  lemma {:induction false} DfsListNested(g: seq<seq<int>>, todo: seq<int>, st: DfsState)
    requires ValidGraph(g) && Sized(st, |g|)
    requires forall i :: 0 <= i < |todo| ==> 0 <= todo[i] < |g|
    requires Consistent(st) && Parenthesized(st) && LeavesTight(g, st)
    ensures Parenthesized(DfsList(g, todo, st)) && LeavesTight(g, DfsList(g, todo, st))
    decreases Unseen(st), 1, |todo|
  {
    if todo == [] {
    } else if st.visited[todo[0]] {
      DfsListNested(g, todo[1..], st);
    } else {
      var st1 := Dfs(g, todo[0], st);
      DfsNested(g, todo[0], st);
      DfsGrows(g, todo[0], st);
      ConsistentGrows(st, st1);
      UnseenShrinks(st, st1, todo[0]);
      DfsListNested(g, todo[1..], st1);
    }
  }

  /** Some visited vertex of st carries t as its discovery or finish stamp. */
  ghost predicate Stamp(st: DfsState, t: int)
    requires |st.discovery| == |st.finish| == |st.visited|
  {
    exists v :: 0 <= v < |st.visited| && st.visited[v] && (st.discovery[v] == t || st.finish[v] == t)
  }

  /** Every tick of the clock after st.time, up to r.time, is a stamp of r. */
  ghost predicate TicksUsed(st: DfsState, r: DfsState) {
    |r.discovery| == |r.finish| == |r.visited|
    && forall t :: st.time < t <= r.time ==> Stamp(r, t)
  }

  /** A stamp given in a is still there in b. */
  lemma TicksKept(st: DfsState, a: DfsState, b: DfsState)
    requires Consistent(a) && Grows(a, b) && TicksUsed(st, a)
    ensures forall t :: st.time < t <= a.time ==> Stamp(b, t)
  {
    forall t | st.time < t <= a.time ensures Stamp(b, t) {
      assert Stamp(a, t);
      var v :| 0 <= v < |a.visited| && a.visited[v] && (a.discovery[v] == t || a.finish[v] == t);
      assert b.visited[v] && b.discovery[v] == a.discovery[v] && b.finish[v] == a.finish[v];
    }
  }

  lemma {:induction false} DfsTicks(g: seq<seq<int>>, u: int, st: DfsState)
    requires ValidGraph(g) && Sized(st, |g|) && 0 <= u < |g| && !st.visited[u]
    requires Consistent(st)
    ensures TicksUsed(st, Dfs(g, u, st))
    decreases Unseen(st), 0, 0
  {
    var st1 := Discover(st, u);
    UnseenShrinks(st, st1, u);
    assert Consistent(st1);
    var st2 := DfsList(g, g[u], st1);
    DfsListTicks(g, g[u], st1);
    DfsListGrows(g, g[u], st1);
    var r := Dfs(g, u, st);
    forall t | st.time < t <= r.time ensures Stamp(r, t) {
      if t == st.time + 1 {
        assert r.visited[u] && r.discovery[u] == t;
      } else if t == r.time {
        assert r.visited[u] && r.finish[u] == t;
      } else {
        assert Stamp(st2, t);
        var v :| 0 <= v < |st2.visited| && st2.visited[v] && (st2.discovery[v] == t || st2.finish[v] == t);
        assert v != u;
        assert r.visited[v] && r.discovery[v] == st2.discovery[v] && r.finish[v] == st2.finish[v];
      }
    }
  }

  lemma {:induction false} DfsListTicks(g: seq<seq<int>>, todo: seq<int>, st: DfsState)
    requires ValidGraph(g) && Sized(st, |g|)
    requires forall i :: 0 <= i < |todo| ==> 0 <= todo[i] < |g|
    requires Consistent(st)
    ensures TicksUsed(st, DfsList(g, todo, st))
    decreases Unseen(st), 1, |todo|
  {
    if todo == [] {
    } else if st.visited[todo[0]] {
      DfsListTicks(g, todo[1..], st);
    } else {
      var st1 := Dfs(g, todo[0], st);
      var r := DfsList(g, todo[1..], st1);
      DfsTicks(g, todo[0], st);
      DfsGrows(g, todo[0], st);
      ConsistentGrows(st, st1);
      UnseenShrinks(st, st1, todo[0]);
      DfsListTicks(g, todo[1..], st1);
      DfsListGrows(g, todo[1..], st1);
      TicksKept(st, st1, r);
    }
  }

  /** A set of visited vertices closed under successors contains every path from it. */
  lemma {:induction false} ClosedReach(g: seq<seq<int>>, st: DfsState, p: seq<int>)
    requires Sized(st, |g|) && Closed(g, st) && IsPath(g, p) && st.visited[p[0]]
    requires forall v :: 0 <= v < |g| && st.visited[v] ==> st.finish[v] != 0
    ensures st.visited[p[|p| - 1]]
    decreases |p|
  {
    if |p| > 1 {
      var i :| 0 <= i < |g[p[0]]| && g[p[0]][i] == p[1];
      assert IsPath(g, p[1..]);
      ClosedReach(g, st, p[1..]);
    }
  }

  /** After initialize and DFS(s), exactly the vertices reachable from s are visited. */
  lemma DfsFromReach(g: seq<seq<int>>, s: int)
    requires ValidGraph(g) && 0 <= s < |g|
    ensures forall v :: 0 <= v < |g| ==> (DfsFrom(g, s).visited[v] <==> Reachable(g, s, v))
  {
    var st := Init(|g|);
    var r := DfsFrom(g, s);
    InitConsistent(|g|);
    DfsSound(g, s, st);
    DfsClosed(g, s, st);
    DfsGrows(g, s, st);
    forall v | 0 <= v < |g| && Reachable(g, s, v) ensures r.visited[v] {
      var p :| IsPath(g, p) && p[0] == s && p[|p| - 1] == v;
      ClosedReach(g, r, p);
    }
  }

  /**
   * The timestamps after initialize and DFS(s): every visited vertex has
   * 1 <= discovery < finish <= time, the others keep 0, and the clock ends at
   * twice the number of visited vertices.
   */
  lemma DfsFromTimes(g: seq<seq<int>>, s: int)
    requires ValidGraph(g) && 0 <= s < |g|
    ensures forall v :: 0 <= v < |g| && DfsFrom(g, s).visited[v] ==>
      1 <= DfsFrom(g, s).discovery[v] < DfsFrom(g, s).finish[v] <= DfsFrom(g, s).time
    ensures forall v :: 0 <= v < |g| && !DfsFrom(g, s).visited[v] ==>
      DfsFrom(g, s).discovery[v] == 0 && DfsFrom(g, s).finish[v] == 0
    ensures DfsFrom(g, s).time == 2 * |Seen(DfsFrom(g, s))|
  {
    var st := Init(|g|);
    var r := DfsFrom(g, s);
    InitConsistent(|g|);
    DfsGrows(g, s, st);
    ConsistentGrows(st, r);
    DfsCount(g, s, st);
    assert Seen(r) - Seen(st) == Seen(r);
  }

  /**
   * Every clock value 1..time is used, by exactly one stamp: it is the
   * discovery or finish stamp of some visited vertex, and the stamps of
   * distinct visited vertices all differ.
   */
  lemma DfsFromTicks(g: seq<seq<int>>, s: int)
    requires ValidGraph(g) && 0 <= s < |g|
    ensures forall t :: 1 <= t <= DfsFrom(g, s).time ==> Stamp(DfsFrom(g, s), t)
    ensures forall v, w :: 0 <= v < |g| && 0 <= w < |g| && v != w && DfsFrom(g, s).visited[v] && DfsFrom(g, s).visited[w] ==>
      DfsFrom(g, s).discovery[v] != DfsFrom(g, s).discovery[w]
      && DfsFrom(g, s).finish[v] != DfsFrom(g, s).finish[w]
      && DfsFrom(g, s).discovery[v] != DfsFrom(g, s).finish[w]
  {
    var st := Init(|g|);
    var r := DfsFrom(g, s);
    InitConsistent(|g|);
    DfsTicks(g, s, st);
    DfsFromNested(g, s);
    DfsFromTimes(g, s);
    forall v, w | 0 <= v < |g| && 0 <= w < |g| && v != w && r.visited[v] && r.visited[w]
      ensures r.discovery[v] != r.discovery[w] && r.finish[v] != r.finish[w] && r.discovery[v] != r.finish[w]
    {
      assert r.finish[v] != 0 && r.finish[w] != 0;
    }
  }

  /**
   * Intervals of visited vertices are disjoint or nested, and a vertex
   * without successors is finished one tick after its discovery.
   */
  lemma DfsFromNested(g: seq<seq<int>>, s: int)
    requires ValidGraph(g) && 0 <= s < |g|
    ensures Parenthesized(DfsFrom(g, s))
    ensures forall v :: 0 <= v < |g| && DfsFrom(g, s).visited[v] && g[v] == [] ==>
      DfsFrom(g, s).finish[v] == DfsFrom(g, s).discovery[v] + 1
  {
    var st := Init(|g|);
    InitConsistent(|g|);
    DfsNested(g, s, st);
    DfsFromTimes(g, s);
  }
}
