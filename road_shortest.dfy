// `findShortestPath` of problem_3/problem_3_DemoImpimation.c: a breadth-first
// search that records, for every intersection it marks, the number of roads
// from the start (`distance`) and the intersection it was reached from
// (`parent`), stops when it takes the destination off the queue, and rebuilds
// the path by following parents back from the destination.

module RoadShortest {
  import opened RoadGraph
  import opened RoadNetwork
  import opened RoadQueue
  import opened RoadSearch

  /** INT_MAX: the distance of an intersection not reached. */
  const IntMax := 2147483647

  /**
   * The search tree: s has distance 0 and no parent; every other marked
   * intersection has a marked parent one road closer, joined to it by an
   * unblocked road; unmarked intersections keep INT_MAX and parent -1.
   */
  ghost predicate Tree(lists: seq<seq<Road>>, blocked: seq<bool>, s: int,
                       marked: seq<bool>, dist: seq<int>, parent: seq<int>)
  {
    |marked| == |lists| && |dist| == |lists| && |parent| == |lists|
    && 0 <= s < |lists| && marked[s] && dist[s] == 0 && parent[s] == -1
    && (forall v :: 0 <= v < |marked| && marked[v] ==> 0 <= dist[v])
    && (forall v {:trigger parent[v]} :: 0 <= v < |marked| && marked[v] && v != s ==>
          0 <= parent[v] < |marked| && marked[parent[v]] && dist[v] == dist[parent[v]] + 1
          && Open(lists, blocked, parent[v], v))
    && forall v :: 0 <= v < |marked| && !marked[v] ==> dist[v] == IntMax && parent[v] == -1
  }

  /** Every unblocked road of u leads to a marked intersection at most one road further. */
  ghost predicate Near(lists: seq<seq<Road>>, blocked: seq<bool>, marked: seq<bool>, dist: seq<int>, u: int) {
    0 <= u < |lists| && |marked| == |lists| && |dist| == |marked|
    && forall r :: r in lists[u] && Usable(r, blocked) ==>
         0 <= r.destination < |marked| && marked[r.destination] && dist[r.destination] <= dist[u] + 1
  }

  /** Queued intersections are marked, at levels lo..lo+1 in non-decreasing order. */
  ghost predicate Levels(marked: seq<bool>, dist: seq<int>, queue: seq<int>, lo: int) {
    |dist| == |marked|
    && (forall k :: 0 <= k < |queue| ==>
          0 <= queue[k] < |marked| && marked[queue[k]] && lo <= dist[queue[k]] <= lo + 1)
    && (forall k, l :: 0 <= k < l < |queue| ==> dist[queue[k]] <= dist[queue[l]])
  }

  /**
   * Queue plus unmarked never exceeds the intersections, and every marked
   * distance is at most lo + 1 and below the number of marked intersections.
   */
  ghost predicate Bounded(marked: seq<bool>, dist: seq<int>, queue: seq<int>, lo: int) {
    |dist| == |marked|
    && |queue| + |Unmarked(marked)| <= |marked|
    && forall v :: 0 <= v < |marked| && marked[v] ==>
         dist[v] <= lo + 1 && dist[v] < |marked| - |Unmarked(marked)|
  }

  /** Every finished intersection (marked, not queued, not cur) is at most at level lo and Near. */
  ghost predicate Finished(lists: seq<seq<Road>>, blocked: seq<bool>, marked: seq<bool>, dist: seq<int>,
                           queue: seq<int>, cur: int, lo: int)
  {
    |dist| == |marked|
    && forall u {:trigger Near(lists, blocked, marked, dist, u)} ::
         0 <= u < |marked| && marked[u] && u !in queue && u != cur ==>
         dist[u] <= lo && Near(lists, blocked, marked, dist, u)
  }

  /**
   * The state of the search at the head of a queue turn (cur == -1) or while
   * the roads of cur are scanned, at level lo, cur being at level lo.
   */
  ghost predicate Layers(lists: seq<seq<Road>>, blocked: seq<bool>, s: int, marked: seq<bool>,
                         dist: seq<int>, parent: seq<int>, queue: seq<int>, cur: int, lo: int)
  {
    Tree(lists, blocked, s, marked, dist, parent)
    && Levels(marked, dist, queue, lo)
    && Bounded(marked, dist, queue, lo)
    && (cur == -1 || (0 <= cur < |marked| && marked[cur] && dist[cur] == lo))
    && Finished(lists, blocked, marked, dist, queue, cur, lo)
  }

  /** The first j roads of cur have been scanned. */
  ghost predicate ScannedNear(lists: seq<seq<Road>>, blocked: seq<bool>, marked: seq<bool>, dist: seq<int>,
                              cur: int, j: int)
  {
    0 <= cur < |lists| && 0 <= j <= |lists[cur]| && |dist| == |marked| && 0 <= cur < |dist|
    && forall i :: 0 <= i < j && Usable(lists[cur][i], blocked) ==>
         0 <= lists[cur][i].destination < |marked| && marked[lists[cur][i].destination]
         && dist[lists[cur][i].destination] <= dist[cur] + 1
  }

  /** The arrays after the initialisation loop and the marking of s. */
  lemma LayersStart(lists: seq<seq<Road>>, blocked: seq<bool>, s: int)
    requires 0 <= s < |lists|
    ensures Layers(lists, blocked, s, NoneMarked(|lists|)[s := true], seq(|lists|, _ => IntMax)[s := 0],
                   seq(|lists|, _ => -1), [s], -1, 0)
  {
    var m := NoneMarked(|lists|);
    UnmarkedBound(m);
    UnmarkedMark(m, s);
  }

  /** Taking the queue's head makes it the current intersection, at its own level. */
  lemma LayersPop(lists: seq<seq<Road>>, blocked: seq<bool>, s: int, marked: seq<bool>,
                  dist: seq<int>, parent: seq<int>, queue: seq<int>, lo: int)
    requires Layers(lists, blocked, s, marked, dist, parent, queue, -1, lo) && |queue| > 0
    ensures Layers(lists, blocked, s, marked, dist, parent, queue[1..], queue[0], dist[queue[0]])
    ensures ScannedNear(lists, blocked, marked, dist, queue[0], 0)
  {
    var q := queue[1..];
    var lo' := dist[queue[0]];
    forall k | 0 <= k < |q|
      ensures lo' <= dist[q[k]] <= lo' + 1
    {
      assert q[k] == queue[k + 1];
    }
    forall k, l | 0 <= k < l < |q|
      ensures dist[q[k]] <= dist[q[l]]
    {
      assert q[k] == queue[k + 1] && q[l] == queue[l + 1];
    }
    forall u | 0 <= u < |marked| && marked[u] && u !in q && u != queue[0]
      ensures dist[u] <= lo' && Near(lists, blocked, marked, dist, u)
    {
      assert queue == [queue[0]] + q;
      assert u !in queue && lo <= lo';
      assert Near(lists, blocked, marked, dist, u);
    }
  }

  /** Marking the far end w of an unblocked road of cur: distance one more than cur's, parent cur. */
  lemma LayersMark(lists: seq<seq<Road>>, blocked: seq<bool>, s: int, marked: seq<bool>,
                   dist: seq<int>, parent: seq<int>, queue: seq<int>, cur: int, lo: int, j: int)
    requires Layers(lists, blocked, s, marked, dist, parent, queue, cur, lo) && cur != -1
    requires ScannedNear(lists, blocked, marked, dist, cur, j) && j < |lists[cur]|
    requires Usable(lists[cur][j], blocked)
    requires 0 <= lists[cur][j].destination < |marked| && !marked[lists[cur][j].destination]
    ensures Layers(lists, blocked, s, marked[lists[cur][j].destination := true],
                   dist[lists[cur][j].destination := dist[cur] + 1],
                   parent[lists[cur][j].destination := cur],
                   queue + [lists[cur][j].destination], cur, lo)
    ensures ScannedNear(lists, blocked, marked[lists[cur][j].destination := true],
                        dist[lists[cur][j].destination := dist[cur] + 1], cur, j + 1)
    ensures |Unmarked(marked[lists[cur][j].destination := true])| == |Unmarked(marked)| - 1
  {
    var w := lists[cur][j].destination;
    UnmarkedMark(marked, w);
    assert Open(lists, blocked, cur, w) by {
      assert lists[cur][j] in lists[cur];
    }
    TreeMark(lists, blocked, s, marked, dist, parent, cur, w);
    LevelsMark(marked, dist, queue, lo, cur, w);
    FinishedMark(lists, blocked, marked, dist, queue, cur, lo, w);
  }

  lemma TreeMark(lists: seq<seq<Road>>, blocked: seq<bool>, s: int, marked: seq<bool>,
                 dist: seq<int>, parent: seq<int>, cur: int, w: int)
    requires Tree(lists, blocked, s, marked, dist, parent)
    requires 0 <= cur < |marked| && marked[cur] && 0 <= w < |marked| && !marked[w]
    requires Open(lists, blocked, cur, w)
    ensures Tree(lists, blocked, s, marked[w := true], dist[w := dist[cur] + 1], parent[w := cur])
  {
  }

  lemma LevelsMark(marked: seq<bool>, dist: seq<int>, queue: seq<int>, lo: int, cur: int, w: int)
    requires Levels(marked, dist, queue, lo) && Bounded(marked, dist, queue, lo)
    requires 0 <= cur < |marked| && marked[cur] && dist[cur] == lo && 0 <= w < |marked| && !marked[w]
    requires |Unmarked(marked[w := true])| == |Unmarked(marked)| - 1
    ensures Levels(marked[w := true], dist[w := dist[cur] + 1], queue + [w], lo)
    ensures Bounded(marked[w := true], dist[w := dist[cur] + 1], queue + [w], lo)
  {
    var m := marked[w := true];
    var d := dist[w := dist[cur] + 1];
    var q := queue + [w];
    forall k | 0 <= k < |q|
      ensures 0 <= q[k] < |m| && m[q[k]] && lo <= d[q[k]] <= lo + 1
    {
      if k < |queue| {
        assert q[k] == queue[k];
      }
    }
    forall k, l | 0 <= k < l < |q|
      ensures d[q[k]] <= d[q[l]]
    {
      assert q[k] == queue[k];
      if l < |queue| {
        assert q[l] == queue[l];
      }
    }
  }

  lemma FinishedMark(lists: seq<seq<Road>>, blocked: seq<bool>, marked: seq<bool>, dist: seq<int>,
                     queue: seq<int>, cur: int, lo: int, w: int)
    requires Finished(lists, blocked, marked, dist, queue, cur, lo)
    requires 0 <= cur < |marked| && 0 <= w < |marked| && !marked[w]
    ensures Finished(lists, blocked, marked[w := true], dist[w := dist[cur] + 1], queue + [w], cur, lo)
  {
    var m := marked[w := true];
    var d := dist[w := dist[cur] + 1];
    forall u | 0 <= u < |m| && m[u] && u !in queue + [w] && u != cur
      ensures d[u] <= lo && Near(lists, blocked, m, d, u)
    {
      assert u !in queue && Near(lists, blocked, marked, dist, u);
    }
  }

  /** A road that is blocked or leads to a marked intersection needs nothing. */
  lemma LayersSkip(lists: seq<seq<Road>>, blocked: seq<bool>, s: int, marked: seq<bool>,
                   dist: seq<int>, parent: seq<int>, queue: seq<int>, cur: int, lo: int, j: int)
    requires Layers(lists, blocked, s, marked, dist, parent, queue, cur, lo) && cur != -1
    requires ScannedNear(lists, blocked, marked, dist, cur, j) && j < |lists[cur]|
    requires !Usable(lists[cur][j], blocked)
      || (0 <= lists[cur][j].destination < |marked| && marked[lists[cur][j].destination])
    ensures ScannedNear(lists, blocked, marked, dist, cur, j + 1)
  {
  }

  /** Once all of cur's roads are scanned, cur is finished. */
  lemma LayersFinish(lists: seq<seq<Road>>, blocked: seq<bool>, s: int, marked: seq<bool>,
                     dist: seq<int>, parent: seq<int>, queue: seq<int>, cur: int, lo: int)
    requires Layers(lists, blocked, s, marked, dist, parent, queue, cur, lo) && cur != -1
    requires ScannedNear(lists, blocked, marked, dist, cur, |lists[cur]|)
    ensures Layers(lists, blocked, s, marked, dist, parent, queue, -1, lo)
  {
    assert Near(lists, blocked, marked, dist, cur) by {
      forall r | r in lists[cur] && Usable(r, blocked)
        ensures 0 <= r.destination < |marked| && marked[r.destination]
          && dist[r.destination] <= dist[cur] + 1
      {
        var i :| 0 <= i < |lists[cur]| && lists[cur][i] == r;
      }
    }
    forall u | 0 <= u < |marked| && marked[u] && u !in queue
      ensures dist[u] <= lo && Near(lists, blocked, marked, dist, u)
    {
      if u != cur {
        assert Finished(lists, blocked, marked, dist, queue, cur, lo);
        assert Near(lists, blocked, marked, dist, u);
      }
    }
  }

  /**
   * Any walk from s to t either ends in a finished intersection no further
   * than its length, or is at least lo roads long: it must pass through the
   * queue or cur, whose levels are at least lo.
   */
  lemma {:induction false} WalkBound(lists: seq<seq<Road>>, blocked: seq<bool>, s: int, marked: seq<bool>,
                                     dist: seq<int>, parent: seq<int>, queue: seq<int>, cur: int, lo: int,
                                     p: seq<int>, t: int)
    requires Layers(lists, blocked, s, marked, dist, parent, queue, cur, lo)
    requires Route(lists, blocked, p, s, t)
    ensures (0 <= t < |marked| && marked[t] && t !in queue && t != cur && dist[t] <= |p| - 1)
      || lo <= |p| - 1
    decreases |p|
  {
    if |p| == 1 {
      if s in queue {
        var k :| 0 <= k < |queue| && queue[k] == s;
      }
    } else {
      RouteTrim(lists, blocked, p, s, t);
      var u := p[|p| - 2];
      WalkBound(lists, blocked, s, marked, dist, parent, queue, cur, lo, p[..|p| - 1], u);
      if 0 <= u < |marked| && marked[u] && u !in queue && u != cur && dist[u] <= |p| - 2 {
        var r :| r in lists[u] && r.destination == t && Usable(r, blocked);
        assert Near(lists, blocked, marked, dist, u);
        if t in queue {
          var k :| 0 <= k < |queue| && queue[k] == t;
        }
      }
    }
  }

  /** With an empty queue the marked intersections are closed. */
  lemma LayersClosed(lists: seq<seq<Road>>, blocked: seq<bool>, s: int, marked: seq<bool>,
                     dist: seq<int>, parent: seq<int>, lo: int)
    requires Layers(lists, blocked, s, marked, dist, parent, [], -1, lo)
    ensures Closed(lists, blocked, marked)
  {
    forall u | 0 <= u < |marked| && marked[u]
      ensures Done(lists, blocked, marked, u)
    {
      assert Near(lists, blocked, marked, dist, u);
    }
  }

  /** A walk from u's parent-side start to t, preceded by an unblocked road into it. */
  lemma RoutePrepend(lists: seq<seq<Road>>, blocked: seq<bool>, u: int, p: seq<int>, v: int, t: int)
    requires Open(lists, blocked, u, v) && Route(lists, blocked, p, v, t)
    ensures Route(lists, blocked, [u] + p, u, t)
  {
    var q := [u] + p;
    forall k | 0 <= k < |q| - 1
      ensures Open(lists, blocked, q[k], q[k + 1])
    {
      if k > 0 {
        assert q[k] == p[k - 1] && q[k + 1] == p[k];
      }
    }
  }

  /** One step up the search tree. */
  lemma ParentStep(lists: seq<seq<Road>>, blocked: seq<bool>, s: int,
                   marked: seq<bool>, dist: seq<int>, parent: seq<int>, v: int)
    requires Tree(lists, blocked, s, marked, dist, parent) && 0 <= v < |marked| && marked[v]
    ensures 0 <= dist[v]
    ensures v == s ==> parent[v] == -1
    ensures v != s ==>
      (0 <= parent[v] < |marked| && marked[parent[v]] && 0 <= dist[parent[v]]
       && dist[v] == dist[parent[v]] + 1 && Open(lists, blocked, parent[v], v))
  {
  }

  /** A walk from s to itself needs no road. */
  lemma HopDistanceSelf(lists: seq<seq<Road>>, blocked: seq<bool>, s: int)
    ensures HopDistance(lists, blocked, s, s, 0)
  {
    RouteSelf(lists, blocked, s);
  }

  /**
   * `findShortestPath(start, end)`: 0 at once when start == end; -1 when end
   * cannot be reached over unblocked roads; otherwise the least number of
   * unblocked roads from start to end, together with the path the program
   * prints, rebuilt from the parents: a walk of that many roads.
   */
  method FindShortestPath(city: CityGraph, start: int, end: int) returns (distance: int, path: seq<int>)
    requires city.Valid()
    requires 0 <= start < city.numIntersections && 0 <= end < city.numIntersections
    ensures distance == -1 <==> !Reach(city.roads, city.roadBlocked[..], start, end)
    ensures distance != -1 ==> HopDistance(city.roads, city.roadBlocked[..], start, end, distance)
    ensures start != end && distance != -1 ==>
      Route(city.roads, city.roadBlocked[..], path, start, end) && |path| == distance + 1
    ensures start == end || distance == -1 ==> path == []
  {
    path := [];
    if start == end {
      HopDistanceSelf(city.roads, city.roadBlocked[..], start);
      return 0, [];
    }
    var n := city.numIntersections;
    ghost var lists := city.roads;
    ghost var blocked := city.roadBlocked[..];
    var visited, dist, parent, m, d, p := ShortestSearch(city, start, end);
    if dist[end] != IntMax {
      path := TracePath(parent, end, lists, blocked, start, m, d);
      assert Reach(lists, blocked, start, end);
      return dist[end], path;
    }
    return -1, [];
  }

  /**
   * The path printing of `findShortestPath`: follows `parent` back from end
   * until -1, putting each intersection in front of the path. The result is
   * a walk from the search's start to end over exactly dist[end] roads.
   */
  method TracePath(parent: array<int>, end: int, ghost lists: seq<seq<Road>>, ghost blocked: seq<bool>,
                   ghost start: int, ghost marked: seq<bool>, ghost dist: seq<int>)
    returns (path: seq<int>)
    requires |marked| <= parent.Length
    requires Tree(lists, blocked, start, marked, dist, parent[..|marked|])
    requires 0 <= end < |marked| && marked[end]
    ensures Route(lists, blocked, path, start, end) && |path| == dist[end] + 1
  {
    ghost var p := parent[..|marked|];
    path := [];
    var current := end;
    while current != -1
      invariant current == -1 ==> Route(lists, blocked, path, start, end) && |path| == dist[end] + 1
      invariant current != -1 ==>
        (0 <= current < |marked| && marked[current] && 0 <= dist[current]
         && Route(lists, blocked, [current] + path, current, end) && |path| == dist[end] - dist[current])
      decreases if current == -1 then 0 else dist[current] + 1
    {
      ParentStep(lists, blocked, start, marked, dist, p, current);
      path := [current] + path;
      if current != start {
        RoutePrepend(lists, blocked, p[current], path, current, end);
      }
      current := parent[current];
    }
  }

  /**
   * The search part of `findShortestPath`, for start != end: fills `visited`,
   * `distance` and `parent` until the destination leaves the queue or the
   * queue runs dry. The destination is marked exactly when it is reachable,
   * and then its distance is the least number of roads to it. The ghost
   * results are the contents of the three arrays.
   */
  method ShortestSearch(city: CityGraph, start: int, end: int)
    returns (visited: array<bool>, distance: array<int>, parent: array<int>,
             ghost m: seq<bool>, ghost d: seq<int>, ghost p: seq<int>)
    requires city.Valid()
    requires 0 <= start < city.numIntersections && 0 <= end < city.numIntersections && start != end
    ensures fresh(visited) && fresh(distance) && fresh(parent)
    ensures visited.Length == MaxIntersections && distance.Length == MaxIntersections
    ensures parent.Length == MaxIntersections
    ensures visited[..city.numIntersections] == m && distance[..city.numIntersections] == d
    ensures parent[..city.numIntersections] == p
    ensures Tree(city.roads, city.roadBlocked[..], start, m, d, p)
    ensures !m[end] ==> !Reach(city.roads, city.roadBlocked[..], start, end)
    ensures m[end] <==> d[end] != IntMax
    ensures m[end] ==> (forall w :: Route(city.roads, city.roadBlocked[..], w, start, end) ==> d[end] + 1 <= |w|)
  {
    var n := city.numIntersections;
    ghost var lists := city.roads;
    ghost var blocked := city.roadBlocked[..];
    var queue;
    visited, distance, parent, queue, m, d, p := StartSearch(city, start);
    LayersStart(lists, blocked, start);
    ghost var lo := 0;
    while !queue.IsEmpty()
      invariant queue.Valid() && queue.items != distance && queue.items != parent
      invariant visited[..n] == m && distance[..n] == d && parent[..n] == p
      invariant city.roadBlocked[..] == blocked
      invariant Layers(lists, blocked, start, m, d, p, queue.Contents(), -1, lo)
      invariant m[end] ==> end in queue.Contents()
      decreases 2 * |Unmarked(m)| + queue.size
    {
      var reached;
      reached, lo, m, d, p := SearchTurn(city, visited, distance, parent, queue, end, lists, blocked, start, lo, m, d, p);
      if reached {
        return;
      }
    }
    LayersClosed(lists, blocked, start, m, d, p, lo);
    ClosedUnreachable(lists, blocked, m, start, end);
  }

  /**
   * The set-up of `findShortestPath`: nothing visited, every distance INT_MAX
   * and every parent -1, then start marked at distance 0 and queued.
   */
  method StartSearch(city: CityGraph, start: int)
    returns (visited: array<bool>, distance: array<int>, parent: array<int>, queue: Queue,
             ghost m: seq<bool>, ghost d: seq<int>, ghost p: seq<int>)
    requires 0 <= start < city.numIntersections <= MaxIntersections
    ensures fresh(visited) && fresh(distance) && fresh(parent) && fresh(queue) && fresh(queue.items)
    ensures visited.Length == MaxIntersections && distance.Length == MaxIntersections
    ensures parent.Length == MaxIntersections && distance != parent
    ensures queue.Valid() && queue.items != distance && queue.items != parent && queue.Contents() == [start]
    ensures visited[..city.numIntersections] == m && distance[..city.numIntersections] == d
    ensures parent[..city.numIntersections] == p
    ensures m == NoneMarked(city.numIntersections)[start := true]
    ensures d == seq(city.numIntersections, _ => IntMax)[start := 0]
    ensures p == seq(city.numIntersections, _ => -1)
  {
    var n := city.numIntersections;
    visited := new bool[MaxIntersections](_ => false);
    distance := new int[MaxIntersections];
    parent := new int[MaxIntersections];
    queue := new Queue();
    for i := 0 to n
      invariant queue.Valid() && queue.Contents() == []
      invariant forall v :: 0 <= v < MaxIntersections ==> !visited[v]
      invariant forall v :: 0 <= v < i ==> distance[v] == IntMax && parent[v] == -1
    {
      distance[i] := IntMax;
      parent[i] := -1;
    }
    visited[start] := true;
    distance[start] := 0;
    queue.Enqueue(start);
    m, d, p := visited[..n], distance[..n], parent[..n];
    assert m == NoneMarked(n)[start := true];
    assert d == seq(n, _ => IntMax)[start := 0];
  }

  /**
   * One turn of the outer loop of `findShortestPath`: takes the head of the
   * queue and stops the search there when it is the destination, or scans its
   * roads otherwise.
   */
  method SearchTurn(city: CityGraph, visited: array<bool>, distance: array<int>, parent: array<int>,
                    queue: Queue, end: int, ghost lists: seq<seq<Road>>, ghost blocked: seq<bool>,
                    ghost start: int, ghost lo0: int,
                    ghost m0: seq<bool>, ghost d0: seq<int>, ghost p0: seq<int>)
    returns (reached: bool, ghost lo: int, ghost m: seq<bool>, ghost d: seq<int>, ghost p: seq<int>)
    requires city.Valid() && queue.Valid() && queue.size > 0
    requires city.roads == lists && city.roadBlocked[..] == blocked
    requires visited.Length == MaxIntersections && distance.Length == MaxIntersections
    requires parent.Length == MaxIntersections
    requires visited != city.roadBlocked && distance != parent
    requires queue.items != distance && queue.items != parent
    requires 0 <= end < city.numIntersections
    requires visited[..city.numIntersections] == m0 && distance[..city.numIntersections] == d0
    requires parent[..city.numIntersections] == p0
    requires Layers(lists, blocked, start, m0, d0, p0, queue.Contents(), -1, lo0)
    requires m0[end] ==> end in queue.Contents()
    modifies visited, distance, parent, queue, queue.items
    ensures queue.Valid() && city.roadBlocked[..] == blocked
    ensures visited[..city.numIntersections] == m && distance[..city.numIntersections] == d
    ensures parent[..city.numIntersections] == p
    ensures Tree(lists, blocked, start, m, d, p)
    ensures reached ==>
      (m[end] && d[end] < |m|
       && forall w :: Route(lists, blocked, w, start, end) ==> d[end] + 1 <= |w|)
    ensures !reached ==>
      (Layers(lists, blocked, start, m, d, p, queue.Contents(), -1, lo)
       && (m[end] ==> end in queue.Contents())
       && 2 * |Unmarked(m)| + queue.size < 2 * |Unmarked(m0)| + old(queue.size))
  {
    var n := city.numIntersections;
    ghost var q := queue.Contents();
    LayersPop(lists, blocked, start, m0, d0, p0, q, lo0);
    var current := queue.Dequeue();
    m, d, p, lo := m0, d0, p0, d0[current];
    assert visited[..n] == m && distance[..n] == d && parent[..n] == p;
    if current == end {
      forall w | Route(lists, blocked, w, start, end)
        ensures d[end] + 1 <= |w|
      {
        WalkBound(lists, blocked, start, m, d, p, q[1..], current, lo, w, end);
      }
      return true, lo, m, d, p;
    }
    m, d, p := ScanLayer(city, visited, distance, parent, queue, current, end, lists, blocked, start, lo, m, d, p);
    reached := false;
  }

  /**
   * The inner loop of `findShortestPath`: every unblocked road of current to
   * an unmarked intersection marks it, gives it distance one more than
   * current's and parent current, and queues it. The ghost results are the
   * new contents of the three arrays.
   */
  method ScanLayer(city: CityGraph, visited: array<bool>, distance: array<int>, parent: array<int>,
                   queue: Queue, current: int, end: int, ghost lists: seq<seq<Road>>, ghost blocked: seq<bool>,
                   ghost start: int, ghost lo: int,
                   ghost m0: seq<bool>, ghost d0: seq<int>, ghost p0: seq<int>)
    returns (ghost m: seq<bool>, ghost d: seq<int>, ghost p: seq<int>)
    requires city.Valid() && queue.Valid()
    requires city.roads == lists && city.roadBlocked[..] == blocked
    requires visited.Length == MaxIntersections && distance.Length == MaxIntersections
    requires parent.Length == MaxIntersections
    requires visited != city.roadBlocked && distance != parent
    requires queue.items != distance && queue.items != parent
    requires 0 <= end < city.numIntersections && current != end
    requires visited[..city.numIntersections] == m0 && distance[..city.numIntersections] == d0
    requires parent[..city.numIntersections] == p0
    requires Layers(lists, blocked, start, m0, d0, p0, queue.Contents(), current, lo)
    requires ScannedNear(lists, blocked, m0, d0, current, 0)
    requires m0[end] ==> end in queue.Contents()
    modifies visited, distance, parent, queue, queue.items
    ensures queue.Valid() && city.roadBlocked[..] == blocked
    ensures visited[..city.numIntersections] == m && distance[..city.numIntersections] == d
    ensures parent[..city.numIntersections] == p
    ensures Layers(lists, blocked, start, m, d, p, queue.Contents(), -1, lo)
    ensures m[end] ==> end in queue.Contents()
    ensures 2 * |Unmarked(m)| + queue.size <= 2 * |Unmarked(m0)| + old(queue.size)
  {
    var n := city.numIntersections;
    var list := city.roads[current];
    m, d, p := m0, d0, p0;
    var j := 0;
    while j < |list|
      invariant queue.Valid() && city.roadBlocked[..] == blocked
      invariant visited[..n] == m && distance[..n] == d && parent[..n] == p
      invariant Layers(lists, blocked, start, m, d, p, queue.Contents(), current, lo)
      invariant ScannedNear(lists, blocked, m, d, current, j)
      invariant m[end] ==> end in queue.Contents()
      invariant 2 * |Unmarked(m)| + queue.size <= 2 * |Unmarked(m0)| + old(queue.size)
    {
      m, d, p := ScanRoad(city, visited, distance, parent, queue, current, j, end, lists, blocked, start, lo, m, d, p);
      j := j + 1;
    }
    LayersFinish(lists, blocked, start, m, d, p, queue.Contents(), current, lo);
  }

  /**
   * One turn of the inner loop of `findShortestPath`: the j-th road of
   * current, when it is unblocked and leads to an unmarked intersection,
   * marks that intersection one road further than current and queues it.
   */
  method ScanRoad(city: CityGraph, visited: array<bool>, distance: array<int>, parent: array<int>,
                  queue: Queue, current: int, j: int, end: int, ghost lists: seq<seq<Road>>,
                  ghost blocked: seq<bool>, ghost start: int, ghost lo: int,
                  ghost m0: seq<bool>, ghost d0: seq<int>, ghost p0: seq<int>)
    returns (ghost m: seq<bool>, ghost d: seq<int>, ghost p: seq<int>)
    requires city.Valid() && queue.Valid()
    requires city.roads == lists && city.roadBlocked[..] == blocked
    requires visited.Length == MaxIntersections && distance.Length == MaxIntersections
    requires parent.Length == MaxIntersections
    requires visited != city.roadBlocked && distance != parent
    requires queue.items != distance && queue.items != parent
    requires 0 <= end < city.numIntersections
    requires visited[..city.numIntersections] == m0 && distance[..city.numIntersections] == d0
    requires parent[..city.numIntersections] == p0
    requires Layers(lists, blocked, start, m0, d0, p0, queue.Contents(), current, lo)
    requires ScannedNear(lists, blocked, m0, d0, current, j) && j < |city.roads[current]|
    requires m0[end] ==> end in queue.Contents()
    modifies visited, distance, parent, queue, queue.items
    ensures queue.Valid() && city.roadBlocked[..] == blocked
    ensures visited[..city.numIntersections] == m && distance[..city.numIntersections] == d
    ensures parent[..city.numIntersections] == p
    ensures Layers(lists, blocked, start, m, d, p, queue.Contents(), current, lo)
    ensures ScannedNear(lists, blocked, m, d, current, j + 1)
    ensures m[end] ==> end in queue.Contents()
    ensures 2 * |Unmarked(m)| + queue.size <= 2 * |Unmarked(m0)| + old(queue.size)
  {
    var n := city.numIntersections;
    ghost var q := queue.Contents();
    var road := city.roads[current][j];
    var neighbor := road.destination;
    if !city.roadBlocked[road.roadId] && !visited[neighbor] {
      LayersMark(lists, blocked, start, m0, d0, p0, q, current, lo, j);
      UnmarkedBound(m0);
      RecordNeighbor(visited, distance, parent, queue, n, current, neighbor);
      m, d, p := m0[neighbor := true], d0[neighbor := d0[current] + 1], p0[neighbor := current];
    } else {
      LayersSkip(lists, blocked, start, m0, d0, p0, q, current, lo, j);
      m, d, p := m0, d0, p0;
    }
  }

  /** The writes that record neighbor as reached from current, and its turn in the queue. */
  method RecordNeighbor(visited: array<bool>, distance: array<int>, parent: array<int>, queue: Queue,
                        n: int, current: int, neighbor: int)
    requires queue.Valid() && queue.items != distance && queue.items != parent && distance != parent
    requires 0 <= current < n && 0 <= neighbor < n
    requires n <= visited.Length && n <= distance.Length && n <= parent.Length
    modifies visited, distance, parent, queue, queue.items
    ensures queue.Valid()
    ensures visited[..n] == old(visited[..n])[neighbor := true]
    ensures distance[..n] == old(distance[..n])[neighbor := old(distance[current]) + 1]
    ensures parent[..n] == old(parent[..n])[neighbor := current]
    ensures old(queue.size) < Capacity ==> queue.Contents() == old(queue.Contents()) + [neighbor]
    ensures old(queue.size) >= Capacity ==> queue.Contents() == old(queue.Contents())
  {
    visited[neighbor] := true;
    distance[neighbor] := distance[current] + 1;
    parent[neighbor] := current;
    queue.Enqueue(neighbor);
  }
}
