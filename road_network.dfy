// The city graph of problem_3/problem_3_DemoImpimation.c: road lists per
// intersection, the road counter and the id-indexed block table, with the
// operations that build the network and block or reopen roads.

module RoadNetwork {
  import opened RoadGraph

  /** MAX_INTERSECTIONS and MAX_ROADS. */
  const MaxIntersections := 100
  const MaxRoads := 1000

  /**
   * The index of the first entry of a road list whose destination is b, or -1
   * when there is none: the entry `blockRoad` and `unblockRoad` stop at.
   */
  function FirstRoadTo(list: seq<Road>, b: int): (k: int)
    ensures -1 <= k < |list|
    ensures k == -1 <==> forall i :: 0 <= i < |list| ==> list[i].destination != b
    ensures k >= 0 ==> list[k].destination == b && forall i :: 0 <= i < k ==> list[i].destination != b
  {
    if list == [] then -1
    else if list[0].destination == b then 0
    else
      var k := FirstRoadTo(list[1..], b);
      if k == -1 then -1 else k + 1
  }

  /**
   * The road lists once `addRoad(a, b)` has given a road the id `id`: an entry
   * towards b at the head of a's list and one towards a at the head of b's; for
   * a self-loop both go to the head of a's list. Every other list is unchanged.
   */
  function WithRoad(lists: seq<seq<Road>>, a: int, b: int, id: int): (r: seq<seq<Road>>)
    requires 0 <= a < |lists| && 0 <= b < |lists|
    ensures |r| == |lists|
    ensures forall u :: 0 <= u < |lists| && u != a && u != b ==> r[u] == lists[u]
    ensures a != b ==> r[a] == [Road(b, id)] + lists[a] && r[b] == [Road(a, id)] + lists[b]
    ensures a == b ==> r[a] == [Road(a, id), Road(a, id)] + lists[a]
  {
    var mid := lists[a := [Road(b, id)] + lists[a]];
    mid[b := [Road(a, id)] + mid[b]]
  }

  /** `CityGraph`: the counters, the road list of every intersection and `roadBlocked`. */
  class CityGraph {
    var numIntersections: int
    var numRoads: int
    var roads: seq<seq<Road>>
    const roadBlocked: array<bool>

    /**
     * Every entry names an intersection and an id already handed out, each road
     * is listed at both ends, and ids not yet handed out are not blocked.
     */
    ghost predicate Valid()
      reads this, roadBlocked
    {
      0 <= numIntersections <= MaxIntersections && |roads| == numIntersections
      && 0 <= numRoads <= MaxRoads && roadBlocked.Length == MaxRoads
      && WellFormed(roads, numRoads) && Undirected(roads)
      && forall id :: numRoads <= id < MaxRoads ==> !roadBlocked[id]
    }

    /** `initializeCityGraph`: no roads, every list empty, nothing blocked. */
    constructor (numIntersections: int)
      requires 0 <= numIntersections <= MaxIntersections
      ensures Valid() && fresh(roadBlocked)
      ensures this.numIntersections == numIntersections && numRoads == 0
      ensures forall i :: 0 <= i < numIntersections ==> roads[i] == []
      ensures forall id :: 0 <= id < MaxRoads ==> !roadBlocked[id]
    {
      this.numIntersections := numIntersections;
      numRoads := 0;
      var lists: seq<seq<Road>> := [];
      for i := 0 to numIntersections
        invariant |lists| == i && forall u :: 0 <= u < i ==> lists[u] == []
      {
        lists := lists + [[]];
      }
      roads := lists;
      var blocked := new bool[MaxRoads];
      for i := 0 to MaxRoads
        invariant forall id :: 0 <= id < i ==> !blocked[id]
      {
        blocked[i] := false;
      }
      roadBlocked := blocked;
    }

    /**
     * `addRoad(a, b)`: the road gets the id numRoads, which then grows by one;
     * an entry with that id goes to the head of a's list (towards b) and of b's
     * list (towards a). A self-loop puts both entries in one list.
     */
    method AddRoad(a: int, b: int)
      requires Valid() && 0 <= a < numIntersections && 0 <= b < numIntersections
      requires numRoads < MaxRoads
      modifies this
      ensures Valid() && numIntersections == old(numIntersections) && numRoads == old(numRoads) + 1
      ensures roads == WithRoad(old(roads), a, b, old(numRoads))
      ensures FirstRoadTo(roads[a], b) == 0 && roads[a][0].roadId == old(numRoads)
      ensures FirstRoadTo(roads[b], a) == 0 && roads[b][0].roadId == old(numRoads)
      ensures !roadBlocked[old(numRoads)]
    {
      var roadId := numRoads;
      numRoads := numRoads + 1;
      ghost var old0 := roads;
      roads := roads[a := [Road(b, roadId)] + roads[a]];
      roads := roads[b := [Road(a, roadId)] + roads[b]];
      assert a == b ==> roads[a] == [Road(a, roadId), Road(a, roadId)] + old0[a];
      forall u, i | 0 <= u < |roads| && 0 <= i < |roads[u]|
        ensures 0 <= roads[u][i].destination < |roads| && 0 <= roads[u][i].roadId < numRoads
        ensures Road(u, roads[u][i].roadId) in roads[roads[u][i].destination]
      {
        var e := roads[u][i];
        if e.roadId == roadId {
          AddRoadNew(old0, roads, a, b, roadId, u, i);
        } else {
          AddRoadOld(old0, roads, a, b, roadId, u, i);
        }
      }
    }

    /**
     * `blockRoad(a, b)`: blocks the road of the first entry of a's list that
     * leads to b, the most recently added such road; without one, nothing changes.
     */
    method BlockRoad(a: int, b: int)
      requires Valid() && 0 <= a < numIntersections && 0 <= b < numIntersections
      modifies roadBlocked
      ensures Valid()
      ensures FirstRoadTo(roads[a], b) == -1 ==> roadBlocked[..] == old(roadBlocked[..])
      ensures FirstRoadTo(roads[a], b) >= 0 ==>
        roadBlocked[..] == old(roadBlocked[..])[roads[a][FirstRoadTo(roads[a], b)].roadId := true]
    {
      SetFirstRoad(a, b, true);
    }

    /** `unblockRoad(a, b)`: the same search, clearing the flag instead. */
    method UnblockRoad(a: int, b: int)
      requires Valid() && 0 <= a < numIntersections && 0 <= b < numIntersections
      modifies roadBlocked
      ensures Valid()
      ensures FirstRoadTo(roads[a], b) == -1 ==> roadBlocked[..] == old(roadBlocked[..])
      ensures FirstRoadTo(roads[a], b) >= 0 ==>
        roadBlocked[..] == old(roadBlocked[..])[roads[a][FirstRoadTo(roads[a], b)].roadId := false]
    {
      SetFirstRoad(a, b, false);
    }

    /** The loop shared by `blockRoad` and `unblockRoad`: walk a's list from the head. */
    method SetFirstRoad(a: int, b: int, flag: bool)
      requires Valid() && 0 <= a < numIntersections && 0 <= b < numIntersections
      modifies roadBlocked
      ensures Valid()
      ensures FirstRoadTo(roads[a], b) == -1 ==> roadBlocked[..] == old(roadBlocked[..])
      ensures FirstRoadTo(roads[a], b) >= 0 ==>
        roadBlocked[..] == old(roadBlocked[..])[roads[a][FirstRoadTo(roads[a], b)].roadId := flag]
    {
      var list := roads[a];
      var i := 0;
      while i < |list|
        invariant 0 <= i <= |list|
        invariant forall j :: 0 <= j < i ==> list[j].destination != b
        invariant roadBlocked[..] == old(roadBlocked[..])
      {
        if list[i].destination == b {
          assert FirstRoadTo(list, b) == i;
          roadBlocked[list[i].roadId] := flag;
          return;
        }
        i := i + 1;
      }
    }
  }

  /** The two entries of the new road are listed at each other's ends. */
  lemma AddRoadNew(old0: seq<seq<Road>>, roads: seq<seq<Road>>, a: int, b: int, id: int, u: int, i: int)
    requires 0 <= a < |old0| && 0 <= b < |old0| && WellFormed(old0, id)
    requires roads == old0[a := [Road(b, id)] + old0[a]][b := [Road(a, id)] + old0[a := [Road(b, id)] + old0[a]][b]]
    requires 0 <= u < |roads| && 0 <= i < |roads[u]| && roads[u][i].roadId == id
    ensures 0 <= roads[u][i].destination < |roads| && Road(u, id) in roads[roads[u][i].destination]
  {
    var mid := old0[a := [Road(b, id)] + old0[a]];
    var e := roads[u][i];
    assert Road(b, id) in mid[a];
    assert Road(b, id) in roads[a] && Road(a, id) in roads[b];
    assert forall x :: x in roads[u] ==> x in old0[u] || (u == a && x == Road(b, id)) || (u == b && x == Road(a, id));
    assert forall x :: x in old0[u] ==> x.roadId < id;
    assert e in roads[u];
  }

  /** Entries of older roads keep their partner entries, which only moved down. */
  lemma AddRoadOld(old0: seq<seq<Road>>, roads: seq<seq<Road>>, a: int, b: int, id: int, u: int, i: int)
    requires 0 <= a < |old0| && 0 <= b < |old0| && WellFormed(old0, id) && Undirected(old0)
    requires roads == old0[a := [Road(b, id)] + old0[a]][b := [Road(a, id)] + old0[a := [Road(b, id)] + old0[a]][b]]
    requires 0 <= u < |roads| && 0 <= i < |roads[u]| && roads[u][i].roadId != id
    ensures 0 <= roads[u][i].destination < |roads| && 0 <= roads[u][i].roadId < id
    ensures Road(u, roads[u][i].roadId) in roads[roads[u][i].destination]
  {
    var e := roads[u][i];
    assert e in old0[u] by {
      assert forall w :: 0 <= w < |old0| ==> forall x :: x in old0[w] ==> x in roads[w];
      assert forall x :: x in roads[u] && x.roadId != id ==> x in old0[u];
    }
    var j :| 0 <= j < |old0[u]| && old0[u][j] == e;
    assert Road(u, e.roadId) in old0[e.destination];
  }
}
