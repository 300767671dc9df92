// The breadth-first searches of problem_3/problem_3_DemoImpimation.c:
// `isReachable` and `countConnectedComponents`, proved against reachability
// over unblocked roads. The invariants of their queue loops are stated here on
// sequences (`marked` is the prefix of the `visited` array that covers the
// intersections, `queue` the queued items), with one lemma per loop step.

module RoadSearch {
  import opened RoadGraph
  import opened RoadNetwork
  import opened RoadQueue

  function Unmarked(marked: seq<bool>): set<int> {
    set v | 0 <= v < |marked| && !marked[v]
  }

  /** Marking one more intersection removes it from the unmarked ones. */
  lemma UnmarkedMark(marked: seq<bool>, w: int)
    requires 0 <= w < |marked| && !marked[w]
    ensures Unmarked(marked[w := true]) == Unmarked(marked) - {w}
    ensures |Unmarked(marked[w := true])| == |Unmarked(marked)| - 1
  {
    assert w in Unmarked(marked);
  }

  lemma UnmarkedBound(marked: seq<bool>)
    ensures |Unmarked(marked)| <= |marked|
    ensures (forall v :: 0 <= v < |marked| ==> !marked[v]) ==> |Unmarked(marked)| == |marked|
  {
    var all := Below(|marked|);
    SubsetSize(Unmarked(marked), all);
    if forall v :: 0 <= v < |marked| ==> !marked[v] {
      assert Unmarked(marked) == all;
    }
  }

  /** Nothing marked. */
  function NoneMarked(n: nat): (m: seq<bool>)
    ensures |m| == n && forall v :: 0 <= v < n ==> !m[v]
  {
    seq(n, _ => false)
  }

  lemma NoneMarkedClosed(lists: seq<seq<Road>>, blocked: seq<bool>)
    ensures Closed(lists, blocked, NoneMarked(|lists|))
  {
  }

  /**
   * The state of a search from s at the head of a queue turn (cur == -1) or
   * while the roads of cur are scanned. `base` holds the intersections marked
   * before the search started. Every intersection is marked that was marked
   * before; every newly marked one is reachable from s; queued and current
   * intersections are newly marked; queue plus unmarked never exceeds the
   * intersections, so the queue has room for every newly marked one; and every
   * marked intersection that is neither queued nor current has all of its
   * unblocked roads leading to marked intersections.
   */
  ghost predicate Frontier(lists: seq<seq<Road>>, blocked: seq<bool>, s: int,
                           base: seq<bool>, marked: seq<bool>, queue: seq<int>, cur: int)
  {
    |marked| == |lists| && |base| == |lists| && 0 <= s < |marked| && marked[s]
    && (forall v :: 0 <= v < |marked| && base[v] ==> marked[v])
    && (forall v :: 0 <= v < |marked| && marked[v] ==> base[v] || Reach(lists, blocked, s, v))
    && (forall k :: 0 <= k < |queue| ==>
          0 <= queue[k] < |marked| && marked[queue[k]] && !base[queue[k]])
    && |queue| + |Unmarked(marked)| <= |marked|
    && (cur == -1 || (0 <= cur < |marked| && marked[cur] && !base[cur]))
    && forall u :: 0 <= u < |marked| && marked[u] && u !in queue && u != cur ==>
         Done(lists, blocked, marked, u)
  }

  /** The first j roads of cur have been scanned: the unblocked ones lead to marked intersections. */
  ghost predicate Scanned(lists: seq<seq<Road>>, blocked: seq<bool>, marked: seq<bool>, cur: int, j: int) {
    0 <= cur < |lists| && 0 <= j <= |lists[cur]|
    && forall i :: 0 <= i < j && Usable(lists[cur][i], blocked) ==>
         0 <= lists[cur][i].destination < |marked| && marked[lists[cur][i].destination]
  }

  /** Marking s and queueing it starts a search. */
  lemma FrontierStart(lists: seq<seq<Road>>, blocked: seq<bool>, s: int, base: seq<bool>)
    requires Closed(lists, blocked, base) && 0 <= s < |base| && !base[s]
    ensures Frontier(lists, blocked, s, base, base[s := true], [s], -1)
  {
    var m := base[s := true];
    RouteSelf(lists, blocked, s);
    UnmarkedMark(base, s);
    UnmarkedBound(base);
    forall u | 0 <= u < |m| && m[u] && u !in [s]
      ensures Done(lists, blocked, m, u)
    {
      assert Done(lists, blocked, base, u);
    }
  }

  /** Taking the queue's head makes it the current intersection. */
  lemma FrontierPop(lists: seq<seq<Road>>, blocked: seq<bool>, s: int,
                    base: seq<bool>, marked: seq<bool>, queue: seq<int>)
    requires Frontier(lists, blocked, s, base, marked, queue, -1) && |queue| > 0
    ensures Frontier(lists, blocked, s, base, marked, queue[1..], queue[0])
    ensures Scanned(lists, blocked, marked, queue[0], 0)
    ensures Reach(lists, blocked, s, queue[0])
  {
    var q := queue[1..];
    forall u | 0 <= u < |marked| && marked[u] && u !in q && u != queue[0]
      ensures Done(lists, blocked, marked, u)
    {
      assert u !in queue;
    }
  }

  /** Marking and queueing the far end of an unblocked road of cur. */
  lemma FrontierMark(lists: seq<seq<Road>>, blocked: seq<bool>, s: int,
                     base: seq<bool>, marked: seq<bool>, queue: seq<int>, cur: int, j: int)
    requires Frontier(lists, blocked, s, base, marked, queue, cur) && cur != -1
    requires Scanned(lists, blocked, marked, cur, j) && j < |lists[cur]|
    requires Usable(lists[cur][j], blocked)
    requires 0 <= lists[cur][j].destination < |marked| && !marked[lists[cur][j].destination]
    ensures Frontier(lists, blocked, s, base, marked[lists[cur][j].destination := true],
                     queue + [lists[cur][j].destination], cur)
    ensures Scanned(lists, blocked, marked[lists[cur][j].destination := true], cur, j + 1)
    ensures |Unmarked(marked[lists[cur][j].destination := true])| == |Unmarked(marked)| - 1
    ensures Reach(lists, blocked, s, lists[cur][j].destination)
  {
    var w := lists[cur][j].destination;
    var m := marked[w := true];
    var q := queue + [w];
    UnmarkedMark(marked, w);
    assert Open(lists, blocked, cur, w) by {
      assert lists[cur][j] in lists[cur];
    }
    ReachExtend(lists, blocked, s, cur, w);
    forall k | 0 <= k < |q|
      ensures 0 <= q[k] < |m| && m[q[k]] && !base[q[k]]
    {
      if k < |queue| {
        assert q[k] == queue[k];
      }
    }
    forall u | 0 <= u < |m| && m[u] && u !in q && u != cur
      ensures Done(lists, blocked, m, u)
    {
      assert u !in queue && Done(lists, blocked, marked, u);
    }
  }

  /** A road that is blocked or leads to a marked intersection needs nothing. */
  lemma FrontierSkip(lists: seq<seq<Road>>, blocked: seq<bool>, marked: seq<bool>, cur: int, j: int)
    requires Scanned(lists, blocked, marked, cur, j) && j < |lists[cur]|
    requires !Usable(lists[cur][j], blocked)
      || (0 <= lists[cur][j].destination < |marked| && marked[lists[cur][j].destination])
    ensures Scanned(lists, blocked, marked, cur, j + 1)
  {
  }

  /** Once all of cur's roads are scanned, cur is finished. */
  lemma FrontierFinish(lists: seq<seq<Road>>, blocked: seq<bool>, s: int,
                       base: seq<bool>, marked: seq<bool>, queue: seq<int>, cur: int)
    requires Frontier(lists, blocked, s, base, marked, queue, cur) && cur != -1
    requires Scanned(lists, blocked, marked, cur, |lists[cur]|)
    ensures Frontier(lists, blocked, s, base, marked, queue, -1)
  {
    assert Done(lists, blocked, marked, cur) by {
      forall r | r in lists[cur] && Usable(r, blocked)
        ensures 0 <= r.destination < |marked| && marked[r.destination]
      {
        var i :| 0 <= i < |lists[cur]| && lists[cur][i] == r;
      }
    }
  }

  /**
   * With the queue empty, the marked intersections are closed, and they are
   * exactly those marked before and those reachable from s.
   */
  lemma FrontierEnd(lists: seq<seq<Road>>, blocked: seq<bool>, s: int, base: seq<bool>, marked: seq<bool>)
    requires Frontier(lists, blocked, s, base, marked, [], -1)
    ensures Closed(lists, blocked, marked)
    ensures forall v :: 0 <= v < |marked| ==> (marked[v] <==> base[v] || Reach(lists, blocked, s, v))
  {
    forall v | 0 <= v < |marked| && Reach(lists, blocked, s, v)
      ensures marked[v]
    {
      var p :| Route(lists, blocked, p, s, v);
      ClosedRoute(lists, blocked, marked, p, s, v);
    }
  }

  /**
   * `isReachable(start, end)`: true at once when start == end; otherwise a
   * breadth-first search over unblocked roads that answers true as soon as it
   * meets `end`. The answer is exactly reachability over unblocked roads.
   */
  method IsReachable(city: CityGraph, start: int, end: int) returns (found: bool)
    requires city.Valid()
    requires 0 <= start < city.numIntersections && 0 <= end < city.numIntersections
    ensures found <==> Reach(city.roads, city.roadBlocked[..], start, end)
  {
    if start == end {
      RouteSelf(city.roads, city.roadBlocked[..], start);
      return true;
    }
    var n := city.numIntersections;
    ghost var lists := city.roads;
    ghost var blocked := city.roadBlocked[..];
    ghost var base := NoneMarked(n);
    var visited := new bool[MaxIntersections](_ => false);
    var queue := new Queue();
    visited[start] := true;
    queue.Enqueue(start);
    assert visited[..n] == base[start := true];
    FrontierStart(lists, blocked, start, base);
    while !queue.IsEmpty()
      invariant queue.Valid() && visited.Length == MaxIntersections && fresh(visited)
      invariant Frontier(lists, blocked, start, base, visited[..n], queue.Contents(), -1)
      invariant !visited[end]
      decreases 2 * |Unmarked(visited[..n])| + queue.size
    {
      FrontierPop(lists, blocked, start, base, visited[..n], queue.Contents());
      var current := queue.Dequeue();
      found := ScanForTarget(city, visited, queue, current, end, start, base);
      if found {
        return;
      }
    }
    FrontierEnd(lists, blocked, start, base, visited[..n]);
    ClosedUnreachable(lists, blocked, visited[..n], start, end);
    found := false;
  }

  /**
   * The inner loop of `isReachable`: walks current's road list from the head,
   * marking and queueing the far end of every unblocked road to an unmarked
   * intersection, and stops with true at the first such road that leads to end.
   */
  method ScanForTarget(city: CityGraph, visited: array<bool>, queue: Queue, current: int, end: int,
                       ghost start: int, ghost base: seq<bool>)
    returns (found: bool)
    requires city.Valid() && queue.Valid() && visited.Length == MaxIntersections
    requires visited != city.roadBlocked
    requires 0 <= end < city.numIntersections && !visited[end]
    requires Frontier(city.roads, city.roadBlocked[..], start, base, visited[..city.numIntersections],
                      queue.Contents(), current)
    requires Scanned(city.roads, city.roadBlocked[..], visited[..city.numIntersections], current, 0)
    modifies visited, queue, queue.items
    ensures queue.Valid()
    ensures found ==> Reach(city.roads, city.roadBlocked[..], start, end)
    ensures !found ==> !visited[end] && Frontier(city.roads, city.roadBlocked[..], start, base,
                                                 visited[..city.numIntersections], queue.Contents(), -1)
    ensures 2 * |Unmarked(visited[..city.numIntersections])| + queue.size
      <= old(2 * |Unmarked(visited[..city.numIntersections])| + queue.size)
  {
    var n := city.numIntersections;
    ghost var lists := city.roads;
    ghost var blocked := city.roadBlocked[..];
    var list := city.roads[current];
    var j := 0;
    while j < |list|
      invariant queue.Valid()
      invariant Frontier(lists, blocked, start, base, visited[..n], queue.Contents(), current)
      invariant Scanned(lists, blocked, visited[..n], current, j)
      invariant !visited[end]
      invariant 2 * |Unmarked(visited[..n])| + queue.size
        <= old(2 * |Unmarked(visited[..n])| + queue.size)
    {
      var road := list[j];
      var neighbor := road.destination;
      if !city.roadBlocked[road.roadId] && !visited[neighbor] {
        ghost var m := visited[..n];
        ghost var q := queue.Contents();
        FrontierMark(lists, blocked, start, base, m, q, current, j);
        if neighbor == end {
          return true;
        }
        visited[neighbor] := true;
        assert visited[..n] == m[neighbor := true];
        UnmarkedBound(m);
        queue.Enqueue(neighbor);
      } else {
        FrontierSkip(lists, blocked, visited[..n], current, j);
      }
      j := j + 1;
    }
    FrontierFinish(lists, blocked, start, base, visited[..n], queue.Contents(), current);
    return false;
  }

  // ---- Connected components ----

  /** v is reachable from some intersection below i. */
  ghost predicate ReachedBelow(lists: seq<seq<Road>>, blocked: seq<bool>, i: int, v: int) {
    exists j :: 0 <= j < i && Reach(lists, blocked, j, v)
  }

  /** The marks `countConnectedComponents` holds before it looks at intersection i. */
  ghost function Covered(lists: seq<seq<Road>>, blocked: seq<bool>, i: int): (m: seq<bool>)
    ensures |m| == |lists|
  {
    seq(|lists|, v => ReachedBelow(lists, blocked, i, v))
  }

  /** The leaders below i. */
  ghost function LeadersBelow(lists: seq<seq<Road>>, blocked: seq<bool>, i: int): set<int> {
    set l | 0 <= l < i && l < |lists| && IsLeader(lists, blocked, l)
  }

  /** What is reachable from a set of intersections is closed. */
  lemma CoveredClosed(lists: seq<seq<Road>>, blocked: seq<bool>, numRoads: int, i: int)
    requires WellFormed(lists, numRoads)
    ensures Closed(lists, blocked, Covered(lists, blocked, i))
  {
    var m := Covered(lists, blocked, i);
    forall u | 0 <= u < |m| && m[u]
      ensures Done(lists, blocked, m, u)
    {
      var j :| 0 <= j < i && Reach(lists, blocked, j, u);
      forall r | r in lists[u] && Usable(r, blocked)
        ensures 0 <= r.destination < |m| && m[r.destination]
      {
        var k :| 0 <= k < |lists[u]| && lists[u][k] == r;
        ReachExtend(lists, blocked, j, u, r.destination);
      }
    }
  }

  /**
   * Intersection i is a leader exactly when it is not yet marked; a marked one
   * adds nothing to the marks.
   */
  lemma CoveredStep(lists: seq<seq<Road>>, blocked: seq<bool>, i: int)
    requires 0 <= i < |lists|
    ensures IsLeader(lists, blocked, i) <==> !Covered(lists, blocked, i)[i]
    ensures LeadersBelow(lists, blocked, i + 1) ==
      if IsLeader(lists, blocked, i) then LeadersBelow(lists, blocked, i) + {i}
      else LeadersBelow(lists, blocked, i)
    ensures Covered(lists, blocked, i)[i] ==> Covered(lists, blocked, i + 1) == Covered(lists, blocked, i)
  {
    var c := Covered(lists, blocked, i);
    var d := Covered(lists, blocked, i + 1);
    if c[i] {
      var j :| 0 <= j < i && Reach(lists, blocked, j, i);
      forall v | 0 <= v < |lists|
        ensures d[v] == c[v]
      {
        if Reach(lists, blocked, i, v) {
          ReachTransitive(lists, blocked, j, i, v);
        }
      }
    }
  }

  /** A search from an unmarked i over the marks below i yields the marks below i + 1. */
  lemma CoveredAfterSearch(lists: seq<seq<Road>>, blocked: seq<bool>, i: int, marked: seq<bool>)
    requires 0 <= i < |lists| && |marked| == |lists|
    requires forall v :: 0 <= v < |marked| ==>
      (marked[v] <==> Covered(lists, blocked, i)[v] || Reach(lists, blocked, i, v))
    ensures marked == Covered(lists, blocked, i + 1)
  {
  }

  /**
   * `countConnectedComponents`: one breadth-first search from every
   * intersection not yet visited, counting the searches. The count is the
   * number of leaders, one per connected component of the unblocked roads
   * (`RoadGraph.LeadersAreComponents`).
   */
  method CountConnectedComponents(city: CityGraph) returns (componentCount: int)
    requires city.Valid()
    ensures componentCount == |Leaders(city.roads, city.roadBlocked[..])|
  {
    var n := city.numIntersections;
    ghost var lists := city.roads;
    ghost var blocked := city.roadBlocked[..];
    var visited := new bool[MaxIntersections](_ => false);
    componentCount := 0;
    assert visited[..n] == Covered(lists, blocked, 0);
    for i := 0 to n
      invariant fresh(visited)
      invariant visited[..n] == Covered(lists, blocked, i)
      invariant componentCount == |LeadersBelow(lists, blocked, i)|
    {
      CoveredStep(lists, blocked, i);
      if !visited[i] {
        componentCount := componentCount + 1;
        ExploreComponent(city, visited, i);
      }
    }
    assert LeadersBelow(lists, blocked, n) == Leaders(lists, blocked);
  }

  /** The search `countConnectedComponents` runs from an unvisited intersection i. */
  method ExploreComponent(city: CityGraph, visited: array<bool>, i: int)
    requires city.Valid() && visited.Length == MaxIntersections && visited != city.roadBlocked
    requires 0 <= i < city.numIntersections && !visited[i]
    requires visited[..city.numIntersections] == Covered(city.roads, city.roadBlocked[..], i)
    modifies visited
    ensures visited[..city.numIntersections] == Covered(city.roads, city.roadBlocked[..], i + 1)
  {
    var n := city.numIntersections;
    ghost var lists := city.roads;
    ghost var blocked := city.roadBlocked[..];
    ghost var base := visited[..n];
    CoveredClosed(lists, blocked, city.numRoads, i);
    var queue := new Queue();
    visited[i] := true;
    queue.Enqueue(i);
    assert visited[..n] == base[i := true];
    FrontierStart(lists, blocked, i, base);
    while !queue.IsEmpty()
      invariant queue.Valid() && fresh(queue.items)
      invariant Frontier(lists, blocked, i, base, visited[..n], queue.Contents(), -1)
      decreases 2 * |Unmarked(visited[..n])| + queue.size
    {
      FrontierPop(lists, blocked, i, base, visited[..n], queue.Contents());
      var current := queue.Dequeue();
      ScanAll(city, visited, queue, current, i, base);
    }
    FrontierEnd(lists, blocked, i, base, visited[..n]);
    CoveredAfterSearch(lists, blocked, i, visited[..n]);
  }

  /**
   * The inner loop of `countConnectedComponents`: marks and queues the far end
   * of every unblocked road of current that leads to an unmarked intersection.
   */
  method ScanAll(city: CityGraph, visited: array<bool>, queue: Queue, current: int,
                 ghost start: int, ghost base: seq<bool>)
    requires city.Valid() && queue.Valid() && visited.Length == MaxIntersections
    requires visited != city.roadBlocked
    requires Frontier(city.roads, city.roadBlocked[..], start, base, visited[..city.numIntersections],
                      queue.Contents(), current)
    requires Scanned(city.roads, city.roadBlocked[..], visited[..city.numIntersections], current, 0)
    modifies visited, queue, queue.items
    ensures queue.Valid()
    ensures Frontier(city.roads, city.roadBlocked[..], start, base,
                     visited[..city.numIntersections], queue.Contents(), -1)
    ensures 2 * |Unmarked(visited[..city.numIntersections])| + queue.size
      <= old(2 * |Unmarked(visited[..city.numIntersections])| + queue.size)
  {
    var n := city.numIntersections;
    ghost var lists := city.roads;
    ghost var blocked := city.roadBlocked[..];
    var list := city.roads[current];
    var j := 0;
    while j < |list|
      invariant queue.Valid()
      invariant Frontier(lists, blocked, start, base, visited[..n], queue.Contents(), current)
      invariant Scanned(lists, blocked, visited[..n], current, j)
      invariant 2 * |Unmarked(visited[..n])| + queue.size
        <= old(2 * |Unmarked(visited[..n])| + queue.size)
    {
      var road := list[j];
      var neighbor := road.destination;
      if !city.roadBlocked[road.roadId] && !visited[neighbor] {
        ghost var m := visited[..n];
        ghost var q := queue.Contents();
        FrontierMark(lists, blocked, start, base, m, q, current, j);
        visited[neighbor] := true;
        assert visited[..n] == m[neighbor := true];
        UnmarkedBound(m);
        queue.Enqueue(neighbor);
      } else {
        FrontierSkip(lists, blocked, visited[..n], current, j);
      }
      j := j + 1;
    }
    FrontierFinish(lists, blocked, start, base, visited[..n], queue.Contents(), current);
  }
}
