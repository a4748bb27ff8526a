/**
 The path search of internal/mapper/mapper.path.go on the map that the crawl of internal/mapper/mapper.go
 leaves behind.
 */
module MapRoutes {
  import opened Graphs
  import Mapper
  import MapPath

  // The crawled rooms as the path search reads them
  function CrawlOf(m: Mapper.Mapper): MapPath.Crawl
    reads m`crawledRooms, m.crawledRooms.Values
  {
    map r | r in m.crawledRooms ::
      MapPath.Node(m.crawledRooms[r].pos.x, m.crawledRooms[r].pos.y, m.crawledRooms[r].pos.z, ExitIds(m.crawledRooms[r].exits))
  }

  function ExitIds(exits: map<string, Mapper.NodeExit>): map<string, int> {
    map e | e in exits :: exits[e].roomId
  }

  // One step that a player can be led along: an exit with a direction to a room under the id the exit names.
  // The crawl also follows exits to room 0, but no room has that id.
  function DirectGraph(posDeltas: Mapper.Directions, world: Mapper.World): Graph<int> {
    map r | r in world.rooms && r != Mapper.START_ROOM_ID_ALIAS ::
      set e | e in Mapper.NodeExits(posDeltas, world.rooms[r]) && Mapper.NodeExits(posDeltas, world.rooms[r])[e].roomId in world.rooms
              && Mapper.NodeExits(posDeltas, world.rooms[r])[e].roomId != Mapper.START_ROOM_ID_ALIAS
        :: Mapper.NodeExits(posDeltas, world.rooms[r])[e].roomId
  }

  // What Start leaves behind of a world
  ghost predicate CrawlOfWorld(m: Mapper.Mapper, posDeltas: Mapper.Directions, world: Mapper.World)
    reads m`crawledRooms, m.crawledRooms.Values
  {
    && (forall r :: r in m.crawledRooms <==> Reach(Mapper.GraphOf(posDeltas, world), world.Target(m.rootRoomId), r))
    && (forall r :: r in m.crawledRooms ==> r in world.rooms && m.crawledRooms[r].exits == Mapper.NodeExits(posDeltas, world.rooms[r]))
  }

  lemma {:induction false} ReachesRooms(posDeltas: Mapper.Directions, world: Mapper.World, a: int, b: int, n: nat)
    requires ReachIn(Mapper.GraphOf(posDeltas, world), a, b, n)
    ensures b in Mapper.GraphOf(posDeltas, world) && b in world.rooms && b != Mapper.START_ROOM_ID_ALIAS
  {
    if n > 0 {
      var c := LastStep(Mapper.GraphOf(posDeltas, world), a, b, n);
    }
  }

  lemma CrawledIsRoom(m: Mapper.Mapper, posDeltas: Mapper.Directions, world: Mapper.World, a: int)
    requires CrawlOfWorld(m, posDeltas, world) && a in m.crawledRooms
    ensures a in world.rooms && a != Mapper.START_ROOM_ID_ALIAS
    ensures a in Mapper.GraphOf(posDeltas, world) && a in DirectGraph(posDeltas, world)
  {
    hide ReachIn, Mapper.NodeExits;
    var g, t := Mapper.GraphOf(posDeltas, world), world.Target(m.rootRoomId);
    assert Reach(g, t, a);
    var n: nat :| ReachIn(g, t, a, n);
    ReachesRooms(posDeltas, world, t, a, n);
  }

  // A direct step from a crawled room leads to a crawled room.
  lemma DirectIsCrawled(m: Mapper.Mapper, posDeltas: Mapper.Directions, world: Mapper.World, a: int, b: int)
    requires CrawlOfWorld(m, posDeltas, world) && a in m.crawledRooms
    requires a in DirectGraph(posDeltas, world) && b in DirectGraph(posDeltas, world)[a]
    ensures b in m.crawledRooms
  {
    hide Reach, Mapper.NodeExits;
    var g := Mapper.GraphOf(posDeltas, world);
    CrawledIsRoom(m, posDeltas, world, a);
    assert world.Target(b) == b;
    assert b in g && b in g[a];
    ReachStep(g, a, b);
    ReachTrans(g, world.Target(m.rootRoomId), a, b);
  }

  // From a crawled room, one exit leads to the same rooms in the crawl and in the world.
  lemma SameSteps(m: Mapper.Mapper, posDeltas: Mapper.Directions, world: Mapper.World, a: int)
    requires CrawlOfWorld(m, posDeltas, world) && a in m.crawledRooms
    ensures a in DirectGraph(posDeltas, world) && a in MapPath.GraphOf(CrawlOf(m))
    ensures MapPath.GraphOf(CrawlOf(m))[a] == DirectGraph(posDeltas, world)[a]
  {
    hide Reach, Mapper.NodeExits, Mapper.GraphOf;
    var g, c := DirectGraph(posDeltas, world), CrawlOf(m);
    CrawledIsRoom(m, posDeltas, world, a);
    forall b | b in g[a]
      ensures b in m.crawledRooms && b in MapPath.GraphOf(c)[a]
    {
      DirectIsCrawled(m, posDeltas, world, a, b);
      var e :| e in m.crawledRooms[a].exits && m.crawledRooms[a].exits[e].roomId == b;
      assert e in c[a].exits && c[a].exits[e] == b;
    }
    forall b | b in MapPath.GraphOf(c)[a]
      ensures b in g[a]
    {
      CrawledIsRoom(m, posDeltas, world, b);
      var e :| e in c[a].exits && c[a].exits[e] == b;
      assert e in m.crawledRooms[a].exits && m.crawledRooms[a].exits[e].roomId == b;
    }
  }

  // Rooms are as far apart in the crawl as in the world.
  lemma {:induction false} SameReach(m: Mapper.Mapper, posDeltas: Mapper.Directions, world: Mapper.World, a: int, b: int, n: nat)
    requires CrawlOfWorld(m, posDeltas, world) && a in m.crawledRooms
    ensures ReachIn(MapPath.GraphOf(CrawlOf(m)), a, b, n) <==> ReachIn(DirectGraph(posDeltas, world), a, b, n)
    ensures ReachIn(DirectGraph(posDeltas, world), a, b, n) ==> b in m.crawledRooms
    decreases n
  {
    hide DirectGraph, MapPath.GraphOf, CrawlOf, CrawlOfWorld;
    var g, h := DirectGraph(posDeltas, world), MapPath.GraphOf(CrawlOf(m));
    SameSteps(m, posDeltas, world, a);
    if n > 0 {
      if ReachIn(g, a, b, n) {
        var c := LastStep(g, a, b, n);
        SameReach(m, posDeltas, world, a, c, n - 1);
        SameSteps(m, posDeltas, world, c);
        DirectIsCrawled(m, posDeltas, world, c, b);
        SameSteps(m, posDeltas, world, b);
      }
      if ReachIn(h, a, b, n) {
        var c := LastStep(h, a, b, n);
        SameReach(m, posDeltas, world, a, c, n - 1);
        SameSteps(m, posDeltas, world, c);
        DirectIsCrawled(m, posDeltas, world, c, b);
        SameSteps(m, posDeltas, world, b);
      }
    }
  }

  lemma SameDistance(m: Mapper.Mapper, posDeltas: Mapper.Directions, world: Mapper.World, a: int, b: int)
    requires CrawlOfWorld(m, posDeltas, world) && a in m.crawledRooms
    ensures Reach(MapPath.GraphOf(CrawlOf(m)), a, b) <==> Reach(DirectGraph(posDeltas, world), a, b)
    ensures forall n: nat :: IsDist(MapPath.GraphOf(CrawlOf(m)), a, b, n) <==> IsDist(DirectGraph(posDeltas, world), a, b, n)
  {
    hide DirectGraph, MapPath.GraphOf, CrawlOf, CrawlOfWorld, ReachIn;
    forall n: nat
      ensures ReachIn(MapPath.GraphOf(CrawlOf(m)), a, b, n) <==> ReachIn(DirectGraph(posDeltas, world), a, b, n)
    {
      SameReach(m, posDeltas, world, a, b, n);
    }
  }

  // Crawl, then search: between two rooms the crawl reached, a path is found if and only if the world has one
  // that does not use an exit to room 0, and with unit exits the path found is a shortest one of these.
  method CrawlAndFind(rootRoomId: int, posDeltas: Mapper.Directions, world: Mapper.World, startRoom: int, goalRoom: int)
    returns (r: MapPath.PathResult, crawl: MapPath.Crawl)
    requires !Mapper.Endless(posDeltas, world, rootRoomId)
    ensures forall id :: id in crawl <==> Reach(Mapper.GraphOf(posDeltas, world), world.Target(rootRoomId), id)
    ensures startRoom != goalRoom && (startRoom !in crawl || goalRoom !in crawl) ==> r == MapPath.Failed(MapPath.RoomNotFound)
    ensures startRoom != goalRoom && startRoom in crawl && goalRoom in crawl ==>
      (r.Path? <==> Reach(DirectGraph(posDeltas, world), startRoom, goalRoom))
    ensures r.Path? ==> MapPath.Leg(crawl, startRoom, goalRoom, r.steps)
    ensures r.Path? && MapPath.Spread(crawl, 1) ==> IsDist(DirectGraph(posDeltas, world), startRoom, goalRoom, |r.steps|)
  {
    hide Reach, MapPath.Leg, MapPath.WithinFactor, MapPath.Spread, IsDist, Mapper.Mapper.Mapped, Mapper.Endless, Mapper.Mapper.Charted,
         DirectGraph, Mapper.GraphOf, CrawlOfWorld, Mapper.BoxOf, Mapper.Walked, Mapper.EntryAt, Mapper.Directed, Mapper.Mapper.Sized;
    var m := new Mapper.Mapper(rootRoomId);
    ghost var offset, taken, _, _ := m.Start(posDeltas, world);
    ChartedIsCrawl(m, posDeltas, world, offset, taken);
    crawl := CrawlOf(m);
    r := MapPath.FindPath(crawl, startRoom, goalRoom);
    if startRoom in crawl {
      SameDistance(m, posDeltas, world, startRoom, goalRoom);
    }
    if r.Path? && MapPath.Spread(crawl, 1) {
      MapPath.UnitExitsGiveShortest(crawl, startRoom, goalRoom, r.steps);
      LegStartsIn(crawl, startRoom, goalRoom, r.steps);
    }
  }

  lemma ChartedIsCrawl(m: Mapper.Mapper, posDeltas: Mapper.Directions, world: Mapper.World, offset: Mapper.Delta, taken: seq<int>)
    requires m.Charted(posDeltas, world, offset, taken)
    ensures CrawlOfWorld(m, posDeltas, world)
    ensures forall r :: r in m.crawledRooms <==> Reach(Mapper.GraphOf(posDeltas, world), world.Target(m.rootRoomId), r)
  {
    hide Reach, Mapper.GraphOf, Mapper.NodeExits, Mapper.Tracked, Mapper.Placed, Mapper.LowestOf, Mapper.Mapper.AtRoomZero;
  }

  // From room 2 the crawl reaches the start room through an exit to room 0, but no path leads there.
  method NoPathThroughZero() returns (r: MapPath.PathResult, crawl: MapPath.Crawl)
    ensures 1 in crawl && 2 in crawl && r.Failed?
  {
    hide Reach, Mapper.GraphOf, DirectGraph, Mapper.Endless, MapPath.Leg;
    var world := Mapper.World(map[1 := map[], 2 := Mapper.EastTo(0)], 1);
    OneIsReached(world);
    r, crawl := CrawlAndFind(2, Mapper.EAST, world, 2, 1);
  }

  lemma OneIsReached(world: Mapper.World)
    requires world == Mapper.World(map[1 := map[], 2 := Mapper.EastTo(0)], 1)
    ensures !Mapper.Endless(Mapper.EAST, world, 2)
    ensures Reach(Mapper.GraphOf(Mapper.EAST, world), 2, 1) && Reach(Mapper.GraphOf(Mapper.EAST, world), 2, 2)
    ensures !Reach(DirectGraph(Mapper.EAST, world), 2, 1)
  {
    hide Mapper.NodeExits, ReachIn;
    Mapper.EastNodes(0);
    var g, h := Mapper.GraphOf(Mapper.EAST, world), DirectGraph(Mapper.EAST, world);
    Mapper.IsNeighbour(Mapper.EAST, world, 2, "east");
    ReachRefl(g, 2);
    ReachStep(g, 2, 1);
    if n: nat :| ReachIn(h, 2, 1, n) {
      NoStep(h, n);
    }
  }

  lemma NoStep(h: Graph<int>, n: nat)
    requires forall v :: v in h ==> h[v] == {}
    ensures !ReachIn(h, 2, 1, n)
  {
    if n > 0 && ReachIn(h, 2, 1, n) {
      var c := LastStep(h, 2, 1, n);
    }
  }

  lemma LegStartsIn(c: MapPath.Crawl, a: int, b: int, steps: seq<MapPath.Step>)
    requires MapPath.Leg(c, a, b, steps)
    ensures a in c
  {
    assert MapPath.Origin(a, steps, 0) == a;
  }
}
