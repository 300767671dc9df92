// Specification of the road network of problem_3/problem_3_DemoImpimation.c:
// every intersection keeps a list of road entries (destination, roadId), and a
// road is usable when its id is not set in the block table. Reachability and
// hop distance are defined over the usable roads.

module RoadGraph {

  /** A node of an intersection's road list: `destination` and the road's `roadId`. */
  datatype Road = Road(destination: int, roadId: int)

  /** Every entry names an intersection and a road id below numRoads. */
  ghost predicate WellFormed(lists: seq<seq<Road>>, numRoads: int) {
    forall u, i :: 0 <= u < |lists| && 0 <= i < |lists[u]| ==>
      0 <= lists[u][i].destination < |lists| && 0 <= lists[u][i].roadId < numRoads
  }

  /** Each road is recorded at both of its ends under the same id. */
  ghost predicate Undirected(lists: seq<seq<Road>>) {
    forall u, r {:trigger r in lists[u]} :: 0 <= u < |lists| && r in lists[u] ==>
      0 <= r.destination < |lists| && Road(u, r.roadId) in lists[r.destination]
  }

  /** An entry whose road is not blocked. */
  predicate Usable(r: Road, blocked: seq<bool>) {
    0 <= r.roadId < |blocked| && !blocked[r.roadId]
  }

  /** There is an unblocked road from u to v. */
  ghost predicate Open(lists: seq<seq<Road>>, blocked: seq<bool>, u: int, v: int) {
    0 <= u < |lists| && exists r :: r in lists[u] && r.destination == v && Usable(r, blocked)
  }

  /** p is a non-empty walk from s to t over unblocked roads. */
  ghost predicate Route(lists: seq<seq<Road>>, blocked: seq<bool>, p: seq<int>, s: int, t: int) {
    |p| >= 1 && p[0] == s && p[|p| - 1] == t
    && forall k :: 0 <= k < |p| - 1 ==> Open(lists, blocked, p[k], p[k + 1])
  }

  ghost predicate Reach(lists: seq<seq<Road>>, blocked: seq<bool>, s: int, t: int) {
    exists p :: Route(lists, blocked, p, s, t)
  }

  /** d is the least number of roads on a walk from s to t. */
  ghost predicate HopDistance(lists: seq<seq<Road>>, blocked: seq<bool>, s: int, t: int, d: int) {
    (exists p :: Route(lists, blocked, p, s, t) && |p| == d + 1)
    && forall p :: Route(lists, blocked, p, s, t) ==> d + 1 <= |p|
  }

  lemma RouteSelf(lists: seq<seq<Road>>, blocked: seq<bool>, s: int)
    ensures Route(lists, blocked, [s], s, s) && Reach(lists, blocked, s, s)
  {
    assert Route(lists, blocked, [s], s, s);
  }

  /** A walk to u followed by an unblocked road u -> v is a walk to v. */
  lemma RouteExtend(lists: seq<seq<Road>>, blocked: seq<bool>, p: seq<int>, s: int, u: int, v: int)
    requires Route(lists, blocked, p, s, u) && Open(lists, blocked, u, v)
    ensures Route(lists, blocked, p + [v], s, v) && Reach(lists, blocked, s, v)
  {
    var q := p + [v];
    forall k | 0 <= k < |q| - 1
      ensures Open(lists, blocked, q[k], q[k + 1])
    {
      if k < |p| - 1 {
        assert q[k] == p[k] && q[k + 1] == p[k + 1];
      }
    }
  }

  /** Reachability grows by one unblocked road. */
  lemma ReachExtend(lists: seq<seq<Road>>, blocked: seq<bool>, s: int, u: int, v: int)
    requires Reach(lists, blocked, s, u) && Open(lists, blocked, u, v)
    ensures Reach(lists, blocked, s, v)
  {
    var p :| Route(lists, blocked, p, s, u);
    RouteExtend(lists, blocked, p, s, u, v);
  }

  /** The walk without its last vertex. */
  lemma RouteTrim(lists: seq<seq<Road>>, blocked: seq<bool>, p: seq<int>, s: int, t: int)
    requires Route(lists, blocked, p, s, t) && |p| >= 2
    ensures Route(lists, blocked, p[..|p| - 1], s, p[|p| - 2])
    ensures Open(lists, blocked, p[|p| - 2], t)
  {
    var q := p[..|p| - 1];
    forall k | 0 <= k < |q| - 1
      ensures Open(lists, blocked, q[k], q[k + 1])
    {
      assert q[k] == p[k] && q[k + 1] == p[k + 1];
    }
  }

  /** The least number of roads is unique. */
  lemma HopDistanceUnique(lists: seq<seq<Road>>, blocked: seq<bool>, s: int, t: int, d1: int, d2: int)
    requires HopDistance(lists, blocked, s, t, d1) && HopDistance(lists, blocked, s, t, d2)
    ensures d1 == d2
  {
    var p1 :| Route(lists, blocked, p1, s, t) && |p1| == d1 + 1;
    var p2 :| Route(lists, blocked, p2, s, t) && |p2| == d2 + 1;
  }

  /** Every usable road of u ends in a marked intersection. */
  ghost predicate Done(lists: seq<seq<Road>>, blocked: seq<bool>, marked: seq<bool>, u: int) {
    0 <= u < |lists|
    && forall r :: r in lists[u] && Usable(r, blocked) ==>
         0 <= r.destination < |marked| && marked[r.destination]
  }

  /** No usable road leaves the marked set. */
  ghost predicate Closed(lists: seq<seq<Road>>, blocked: seq<bool>, marked: seq<bool>) {
    |marked| == |lists|
    && forall u :: 0 <= u < |marked| && marked[u] ==> Done(lists, blocked, marked, u)
  }

  /** A walk that starts in a closed set stays in it. */
  lemma {:induction false} ClosedRoute(lists: seq<seq<Road>>, blocked: seq<bool>, marked: seq<bool>,
                                       p: seq<int>, s: int, t: int)
    requires Closed(lists, blocked, marked) && 0 <= s < |marked| && marked[s]
    requires Route(lists, blocked, p, s, t)
    ensures 0 <= t < |marked| && marked[t]
    decreases |p|
  {
    if |p| >= 2 {
      RouteTrim(lists, blocked, p, s, t);
      var u := p[|p| - 2];
      ClosedRoute(lists, blocked, marked, p[..|p| - 1], s, u);
      var r :| r in lists[u] && r.destination == t && Usable(r, blocked);
      assert Done(lists, blocked, marked, u);
    }
  }

  /** Nothing outside a closed set that holds s is reachable from s. */
  lemma ClosedUnreachable(lists: seq<seq<Road>>, blocked: seq<bool>, marked: seq<bool>, s: int, t: int)
    requires Closed(lists, blocked, marked) && 0 <= s < |marked| && marked[s]
    requires 0 <= t < |marked| && !marked[t]
    ensures !Reach(lists, blocked, s, t)
  {
    if Reach(lists, blocked, s, t) {
      var p :| Route(lists, blocked, p, s, t);
      ClosedRoute(lists, blocked, marked, p, s, t);
    }
  }

  // ---- Connected components ----

  /**
   * The intersections no lower-numbered intersection reaches: the first
   * intersection of each connected component.
   */
  ghost function Leaders(lists: seq<seq<Road>>, blocked: seq<bool>): set<int> {
    set i | 0 <= i < |lists| && IsLeader(lists, blocked, i)
  }

  ghost predicate IsLeader(lists: seq<seq<Road>>, blocked: seq<bool>, i: int) {
    forall j :: 0 <= j < i ==> !Reach(lists, blocked, j, i)
  }

  /** v is connected to some leader. */
  ghost predicate HasLeader(lists: seq<seq<Road>>, blocked: seq<bool>, v: int) {
    exists l :: l in Leaders(lists, blocked) && Reach(lists, blocked, l, v)
  }

  lemma OpenSymmetric(lists: seq<seq<Road>>, blocked: seq<bool>, u: int, v: int)
    requires Undirected(lists) && Open(lists, blocked, u, v)
    ensures Open(lists, blocked, v, u)
  {
    var r :| r in lists[u] && r.destination == v && Usable(r, blocked);
    var i :| 0 <= i < |lists[u]| && lists[u][i] == r;
    assert Road(u, r.roadId) in lists[v];
  }

  /** Roads are two-way, so a walk reversed is a walk back. */
  lemma ReachSymmetric(lists: seq<seq<Road>>, blocked: seq<bool>, s: int, t: int)
    requires Undirected(lists) && Reach(lists, blocked, s, t)
    ensures Reach(lists, blocked, t, s)
  {
    var p :| Route(lists, blocked, p, s, t);
    var q := seq(|p|, k requires 0 <= k < |p| => p[|p| - 1 - k]);
    forall k | 0 <= k < |q| - 1
      ensures Open(lists, blocked, q[k], q[k + 1])
    {
      var m := |p| - 2 - k;
      assert Open(lists, blocked, p[m], p[m + 1]);
      OpenSymmetric(lists, blocked, p[m], p[m + 1]);
    }
    assert Route(lists, blocked, q, t, s);
  }

  lemma ReachTransitive(lists: seq<seq<Road>>, blocked: seq<bool>, a: int, b: int, c: int)
    requires Reach(lists, blocked, a, b) && Reach(lists, blocked, b, c)
    ensures Reach(lists, blocked, a, c)
  {
    var p :| Route(lists, blocked, p, a, b);
    var q :| Route(lists, blocked, q, b, c);
    var w := p + q[1..];
    forall k | 0 <= k < |w| - 1
      ensures Open(lists, blocked, w[k], w[k + 1])
    {
      if k < |p| - 1 {
        assert w[k] == p[k] && w[k + 1] == p[k + 1];
      } else {
        var m := k - |p| + 1;
        assert w[k] == q[m] && w[k + 1] == q[m + 1];
      }
    }
    assert Route(lists, blocked, w, a, c);
  }

  /** The least intersection that reaches v is a leader. */
  lemma {:induction false} LeaderOf(lists: seq<seq<Road>>, blocked: seq<bool>, v: int, j: int)
    requires Undirected(lists) && 0 <= j <= v < |lists|
    requires Reach(lists, blocked, j, v)
    ensures HasLeader(lists, blocked, v)
    decreases j
  {
    if j in Leaders(lists, blocked) {
    } else {
      var k :| 0 <= k < j && Reach(lists, blocked, k, j);
      ReachTransitive(lists, blocked, k, j, v);
      LeaderOf(lists, blocked, v, k);
    }
  }

  /**
   * The leaders are one per component: two different leaders are not
   * connected, every intersection is connected to a leader, and there are
   * between 1 and n of them when there is at least one intersection.
   */
  lemma LeadersAreComponents(lists: seq<seq<Road>>, blocked: seq<bool>)
    requires Undirected(lists)
    ensures forall a, b :: a in Leaders(lists, blocked) && b in Leaders(lists, blocked) && a != b ==>
      !Reach(lists, blocked, a, b)
    ensures forall v :: 0 <= v < |lists| ==> HasLeader(lists, blocked, v)
    ensures |lists| >= 1 ==> 1 <= |Leaders(lists, blocked)| <= |lists|
  {
    var ls := Leaders(lists, blocked);
    forall a, b | a in ls && b in ls && a != b
      ensures !Reach(lists, blocked, a, b)
    {
      if Reach(lists, blocked, a, b) {
        if a > b {
          ReachSymmetric(lists, blocked, a, b);
        }
      }
    }
    forall v | 0 <= v < |lists|
      ensures HasLeader(lists, blocked, v)
    {
      RouteSelf(lists, blocked, v);
      LeaderOf(lists, blocked, v, v);
    }
    if |lists| >= 1 {
      assert 0 in ls;
      var all := Below(|lists|);
      assert ls <= all;
      SubsetSize(ls, all);
    }
  }

  /** The intersections 0..n-1. */
  ghost function Below(n: nat): (r: set<int>)
    ensures |r| == n && forall i :: i in r <==> 0 <= i < n
  {
    if n == 0 then {} else Below(n - 1) + {n - 1}
  }

  lemma SubsetSize(a: set<int>, b: set<int>)
    requires a <= b
    ensures |a| <= |b|
  {
    assert b == a + (b - a);
  }
}
