// The sample network `main` of problem_3/problem_3_DemoImpimation.c builds
// (six intersections, eight roads, the last a self-loop at 5) and the results
// `runTests` reports on it.

module RoadScenario {
  import opened RoadGraph
  import opened RoadNetwork
  import opened RoadSearch
  import opened RoadShortest

  /** The road lists after the eight `addRoad` calls; each call puts its entries at the heads. */
  const DemoRoads: seq<seq<Road>> := [
    [Road(2, 1), Road(1, 0)],
    [Road(3, 3), Road(2, 2), Road(0, 0)],
    [Road(4, 5), Road(3, 4), Road(1, 2), Road(0, 1)],
    [Road(4, 6), Road(2, 4), Road(1, 3)],
    [Road(3, 6), Road(2, 5)],
    [Road(5, 7), Road(5, 7)]
  ]

  /** `initializeCityGraph(&city, 6)` followed by the eight `addRoad` calls of `main`. */
  method BuildDemo() returns (city: CityGraph)
    ensures fresh(city) && fresh(city.roadBlocked) && city.Valid()
    ensures city.numIntersections == 6 && city.numRoads == 8 && city.roads == DemoRoads
    ensures forall id :: 0 <= id < MaxRoads ==> !city.roadBlocked[id]
  {
    city := new CityGraph(6);
    assert city.roads == Empty6;
    city.AddRoad(0, 1);
    city.AddRoad(0, 2);
    city.AddRoad(1, 2);
    city.AddRoad(1, 3);
    city.AddRoad(2, 3);
    city.AddRoad(2, 4);
    city.AddRoad(3, 4);
    city.AddRoad(5, 5);
    DemoBuilt();
  }

  const Empty6: seq<seq<Road>> := [[], [], [], [], [], []]

  /** The eight additions of `main`, in order, build DemoRoads. */
  lemma DemoBuilt()
    ensures WithRoad(WithRoad(WithRoad(WithRoad(WithRoad(WithRoad(WithRoad(WithRoad(Empty6, 0, 1, 0), 0, 2, 1), 1, 2, 2), 1, 3, 3), 2, 3, 4), 2, 4, 5), 3, 4, 6), 5, 5, 7) == DemoRoads
  {
    var r := Empty6;
    r := WithRoad(r, 0, 1, 0);
    assert r[0] == [Road(1, 0)] && r[1] == [Road(0, 0)];
    assert r == [[Road(1, 0)], [Road(0, 0)], [], [], [], []];
    r := WithRoad(r, 0, 2, 1);
    assert r[0] == [Road(2, 1), Road(1, 0)] && r[2] == [Road(0, 1)];
    assert r == [[Road(2, 1), Road(1, 0)], [Road(0, 0)], [Road(0, 1)], [], [], []];
    r := WithRoad(r, 1, 2, 2);
    assert r[1] == [Road(2, 2), Road(0, 0)] && r[2] == [Road(1, 2), Road(0, 1)];
    assert r == [[Road(2, 1), Road(1, 0)], [Road(2, 2), Road(0, 0)], [Road(1, 2), Road(0, 1)], [], [], []];
    r := WithRoad(r, 1, 3, 3);
    assert r[1] == [Road(3, 3), Road(2, 2), Road(0, 0)] && r[3] == [Road(1, 3)];
    assert r == [[Road(2, 1), Road(1, 0)], [Road(3, 3), Road(2, 2), Road(0, 0)], [Road(1, 2), Road(0, 1)], [Road(1, 3)], [], []];
    r := WithRoad(r, 2, 3, 4);
    assert r[2] == [Road(3, 4), Road(1, 2), Road(0, 1)] && r[3] == [Road(2, 4), Road(1, 3)];
    assert r == [[Road(2, 1), Road(1, 0)], [Road(3, 3), Road(2, 2), Road(0, 0)], [Road(3, 4), Road(1, 2), Road(0, 1)], [Road(2, 4), Road(1, 3)], [], []];
    r := WithRoad(r, 2, 4, 5);
    assert r[2] == [Road(4, 5), Road(3, 4), Road(1, 2), Road(0, 1)] && r[4] == [Road(2, 5)];
    assert r == [[Road(2, 1), Road(1, 0)], [Road(3, 3), Road(2, 2), Road(0, 0)], [Road(4, 5), Road(3, 4), Road(1, 2), Road(0, 1)], [Road(2, 4), Road(1, 3)], [Road(2, 5)], []];
    r := WithRoad(r, 3, 4, 6);
    assert r[3] == [Road(4, 6), Road(2, 4), Road(1, 3)] && r[4] == [Road(3, 6), Road(2, 5)];
    assert r == [[Road(2, 1), Road(1, 0)], [Road(3, 3), Road(2, 2), Road(0, 0)], [Road(4, 5), Road(3, 4), Road(1, 2), Road(0, 1)], [Road(4, 6), Road(2, 4), Road(1, 3)], [Road(3, 6), Road(2, 5)], []];
    r := WithRoad(r, 5, 5, 7);
    assert r[5] == [Road(5, 7), Road(5, 7)];
    assert r == [[Road(2, 1), Road(1, 0)], [Road(3, 3), Road(2, 2), Road(0, 0)], [Road(4, 5), Road(3, 4), Road(1, 2), Road(0, 1)], [Road(4, 6), Road(2, 4), Road(1, 3)], [Road(3, 6), Road(2, 5)], [Road(5, 7), Road(5, 7)]];
  }

  /** The roads 0, 1, 3 and 5 join 0 to each of 1..4: 0-1, 0-2, 0-1-3 and 0-2-4. */
  lemma DemoSpanning(blocked: seq<bool>)
    requires |blocked| == MaxRoads && !blocked[0] && !blocked[1] && !blocked[3] && !blocked[5]
    ensures Route(DemoRoads, blocked, [0, 2, 4], 0, 4)
    ensures forall v :: 1 <= v < 5 ==> Reach(DemoRoads, blocked, 0, v)
  {
    var g := DemoRoads;
    assert Open(g, blocked, 0, 1) by { assert Road(1, 0) in g[0]; }
    assert Open(g, blocked, 0, 2) by { assert Road(2, 1) in g[0]; }
    assert Open(g, blocked, 1, 3) by { assert Road(3, 3) in g[1]; }
    assert Open(g, blocked, 2, 4) by { assert Road(4, 5) in g[2]; }
    assert Route(g, blocked, [0, 1], 0, 1);
    assert Route(g, blocked, [0, 2], 0, 2);
    assert Route(g, blocked, [0, 1, 3], 0, 3);
    assert Route(g, blocked, [0, 2, 4], 0, 4);
  }

  /** Whatever is blocked, no road leaves 0..4, so 5 is cut off from them. */
  lemma DemoIsolated(blocked: seq<bool>, j: int)
    requires 0 <= j < 5
    ensures !Reach(DemoRoads, blocked, j, 5)
  {
    var marked := [true, true, true, true, true, false];
    forall u | 0 <= u < |marked| && marked[u]
      ensures Done(DemoRoads, blocked, marked, u)
    {
      assert forall r :: r in DemoRoads[u] ==> 0 <= r.destination < 5;
    }
    ClosedUnreachable(DemoRoads, blocked, marked, j, 5);
  }

  /** Two components, {0, 1, 2, 3, 4} and {5}, led by 0 and 5. */
  lemma DemoLeaders(blocked: seq<bool>)
    requires |blocked| == MaxRoads && !blocked[0] && !blocked[1] && !blocked[3] && !blocked[5]
    ensures Leaders(DemoRoads, blocked) == {0, 5}
    ensures |Leaders(DemoRoads, blocked)| == 2
  {
    DemoSpanning(blocked);
    forall j | 0 <= j < 5
      ensures !Reach(DemoRoads, blocked, j, 5)
    {
      DemoIsolated(blocked, j);
    }
    assert IsLeader(DemoRoads, blocked, 5);
    assert IsLeader(DemoRoads, blocked, 0);
    forall i | 1 <= i < 5
      ensures !IsLeader(DemoRoads, blocked, i)
    {
      assert Reach(DemoRoads, blocked, 0, i);
    }
  }

  /** Two roads from 0 to 4, and no single road: 4 is not in 0's list. */
  lemma DemoHop04(blocked: seq<bool>)
    requires |blocked| == MaxRoads && !blocked[0] && !blocked[1] && !blocked[3] && !blocked[5]
    ensures HopDistance(DemoRoads, blocked, 0, 4, 2)
  {
    DemoSpanning(blocked);
    forall p | Route(DemoRoads, blocked, p, 0, 4)
      ensures 3 <= |p|
    {
      NoRoad04(blocked);
    }
  }

  lemma NoRoad04(blocked: seq<bool>)
    ensures !Open(DemoRoads, blocked, 0, 4)
  {
    assert forall r :: r in DemoRoads[0] ==> r.destination != 4;
  }

  /** Road 3 joins 1 and 3 directly. */
  lemma DemoHop13(blocked: seq<bool>)
    requires |blocked| == MaxRoads && !blocked[3]
    ensures HopDistance(DemoRoads, blocked, 1, 3, 1)
  {
    assert Open(DemoRoads, blocked, 1, 3) by { assert Road(3, 3) in DemoRoads[1]; }
    assert Route(DemoRoads, blocked, [1, 3], 1, 3);
  }

  /** The city `main` hands to `runTests`: the sample network with nothing blocked. */
  ghost predicate IsDemo(city: CityGraph)
    reads city, city.roadBlocked
  {
    city.Valid() && city.numIntersections == 6 && city.roads == DemoRoads
    && forall id :: 0 <= id < MaxRoads ==> !city.roadBlocked[id]
  }

  /**
   * `runTests` on the sample network: 4 reachable from 0 but 5 not from 1;
   * shortest distances 2 (0 to 4) and 1 (1 to 3); two components; after
   * blocking the roads 1-2 and 2-3, 4 is still reachable from 0 and there are
   * still two components; after unblocking them, two components again and
   * nothing blocked.
   */
  method RunTests(city: CityGraph)
    returns (reach04: bool, reach15: bool, dist04: int, dist13: int, components: int,
             reach04Blocked: bool, componentsBlocked: int, componentsAfter: int)
    requires IsDemo(city)
    modifies city.roadBlocked
    ensures reach04 && !reach15 && dist04 == 2 && dist13 == 1 && components == 2
    ensures reach04Blocked && componentsBlocked == 2 && componentsAfter == 2
    ensures IsDemo(city)
  {
    reach04, reach15, dist04, dist13, components := OpenTests(city);
    reach04Blocked, componentsBlocked, componentsAfter := BlockingTests(city);
  }

  /** Tests 1 to 3 of `runTests`, on the unblocked network. */
  method OpenTests(city: CityGraph)
    returns (reach04: bool, reach15: bool, dist04: int, dist13: int, components: int)
    requires IsDemo(city)
    ensures reach04 && !reach15 && dist04 == 2 && dist13 == 1 && components == 2
  {
    ghost var none := city.roadBlocked[..];
    DemoSpanning(none);
    reach04 := IsReachable(city, 0, 4);
    DemoIsolated(none, 1);
    reach15 := IsReachable(city, 1, 5);
    var path;
    dist04, path := FindShortestPath(city, 0, 4);
    DemoHop04(none);
    HopDistanceUnique(DemoRoads, none, 0, 4, dist04, 2);
    dist13, path := FindShortestPath(city, 1, 3);
    DemoHop13(none);
    HopDistanceUnique(DemoRoads, none, 1, 3, dist13, 1);
    components := CountConnectedComponents(city);
    DemoLeaders(none);
  }

  /** Tests 4 and 5 of `runTests`: block the roads 1-2 and 2-3, re-test, reopen them. */
  method BlockingTests(city: CityGraph) returns (reach04Blocked: bool, componentsBlocked: int, componentsAfter: int)
    requires IsDemo(city)
    modifies city.roadBlocked
    ensures reach04Blocked && componentsBlocked == 2 && componentsAfter == 2
    ensures IsDemo(city)
  {
    ghost var none := city.roadBlocked[..];
    assert FirstRoadTo(city.roads[1], 2) == 1 && FirstRoadTo(city.roads[2], 3) == 1;
    city.BlockRoad(1, 2);
    city.BlockRoad(2, 3);
    ghost var some := city.roadBlocked[..];
    assert some == none[2 := true][4 := true];
    DemoSpanning(some);
    reach04Blocked := IsReachable(city, 0, 4);
    componentsBlocked := CountConnectedComponents(city);
    DemoLeaders(some);
    city.UnblockRoad(1, 2);
    city.UnblockRoad(2, 3);
    assert city.roadBlocked[..] == none;
    DemoLeaders(none);
    componentsAfter := CountConnectedComponents(city);
  }
}
