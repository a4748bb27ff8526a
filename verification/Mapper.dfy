/**
 The map crawler of internal/mapper/mapper.go: a breadth-first crawl over the rooms' exits that
 gives every room grid coordinates, and the lookups on the grid it leaves behind.
 */
module Mapper {
  import opened Common
  import opened Graphs

  // positionDelta without its arrow
  datatype Delta = Delta(x: int, y: int, z: int) {
    function Combine(d: Delta): Delta {
      Delta(x + d.x, y + d.y, z + d.z)
    }
  }

  const ORIGIN := Delta(0, 0, 0)

  datatype ExitData = ExitData(roomId: int, mapDirection: string)
  datatype NodeExit = NodeExit(roomId: int, direction: Delta)

  const START_ROOM_ID_ALIAS := 0

  // The rooms that can be loaded, each with its exits. Loading room 0 loads the start room.
  datatype World = World(rooms: map<int, map<string, ExitData>>, startRoomConfig: int) {
    function StartRoom(): (id: int)
      ensures id != START_ROOM_ID_ALIAS
    {
      if startRoomConfig == 0 then 1 else startRoomConfig
    }

    // The id of the room loaded for an id
    function Target(id: int): (t: int)
      ensures t != START_ROOM_ID_ALIAS
    {
      if id == START_ROOM_ID_ALIAS then StartRoom() else id
    }

    predicate Loads(id: int) {
      Target(id) in rooms
    }
  }

  // posDeltas: the offset of every known direction
  type Directions = d: map<string, Delta> | forall n :: n in d ==> d[n] != ORIGIN witness map[]

  // An exit is mapped by its MapDirection, else by its name, else not at all.
  predicate HasDirection(posDeltas: Directions, name: string, e: ExitData) {
    e.mapDirection in posDeltas || name in posDeltas
  }

  function NodeExits(posDeltas: Directions, exits: map<string, ExitData>): map<string, NodeExit> {
    map name | name in exits && HasDirection(posDeltas, name, exits[name]) ::
      NodeExit(exits[name].roomId,
               if exits[name].mapDirection in posDeltas then posDeltas[exits[name].mapDirection] else posDeltas[name])
  }

  // An exit is kept if its MapDirection or its name is a known direction. It then leads where the
  // MapDirection says, whatever the name; the name only counts without a known MapDirection.
  ghost predicate Directed(posDeltas: Directions, given: map<string, ExitData>, kept: map<string, NodeExit>) {
    && (forall name :: name in kept <==> name in given && (given[name].mapDirection in posDeltas || name in posDeltas))
    && (forall name :: name in kept && name in given ==> kept[name].roomId == given[name].roomId)
    && (forall name :: name in kept && name in given && given[name].mapDirection in posDeltas ==>
          kept[name].direction == posDeltas[given[name].mapDirection])
    && (forall name :: name in kept && name in given && given[name].mapDirection !in posDeltas && name in posDeltas ==>
          kept[name].direction == posDeltas[name])
  }

  lemma NodeExitsDirected(posDeltas: Directions, given: map<string, ExitData>)
    ensures Directed(posDeltas, given, NodeExits(posDeltas, given))
  {
  }

  // One step: an exit with a direction, to the room loaded for the id it names.
  function GraphOf(posDeltas: Directions, world: World): Graph<int> {
    map r | r in world.rooms && r != START_ROOM_ID_ALIAS ::
      set e | e in NodeExits(posDeltas, world.rooms[r]) && world.Loads(NodeExits(posDeltas, world.rooms[r])[e].roomId)
        :: world.Target(NodeExits(posDeltas, world.rooms[r])[e].roomId)
  }

  // pos is the sum of the directions along some walk of n exits from the root to r.
  ghost predicate PlacedBy(posDeltas: Directions, world: World, root: int, r: int, pos: Delta, n: nat)
    decreases n
  {
    if n == 0 then r == world.Target(root) && pos == ORIGIN
    else exists p: int, q: Delta, e: string :: StepTo(posDeltas, world, p, q, e, r, pos) && PlacedBy(posDeltas, world, root, p, q, n - 1)
  }

  ghost predicate StepTo(posDeltas: Directions, world: World, p: int, q: Delta, e: string, r: int, pos: Delta) {
    && p in world.rooms && e in NodeExits(posDeltas, world.rooms[p])
    && world.Target(NodeExits(posDeltas, world.rooms[p])[e].roomId) == r
    && pos == q.Combine(NodeExits(posDeltas, world.rooms[p])[e].direction)
  }

  // pos is the sum of the directions along some shortest walk from the root to r.
  ghost predicate Placed(posDeltas: Directions, world: World, root: int, r: int, pos: Delta) {
    exists n: nat :: IsDist(GraphOf(posDeltas, world), world.Target(root), r, n) && PlacedBy(posDeltas, world, root, r, pos, n)
  }

  lemma PlacedStep(posDeltas: Directions, world: World, root: int, p: int, q: Delta, e: string, n: nat)
    requires PlacedBy(posDeltas, world, root, p, q, n) && p in world.rooms && e in NodeExits(posDeltas, world.rooms[p])
    ensures var x := NodeExits(posDeltas, world.rooms[p])[e];
            PlacedBy(posDeltas, world, root, world.Target(x.roomId), q.Combine(x.direction), n + 1)
  {
    var x := NodeExits(posDeltas, world.rooms[p])[e];
    assert StepTo(posDeltas, world, p, q, e, world.Target(x.roomId), q.Combine(x.direction));
  }

  // The converse, in the world's own terms: the last exit of the walk that places a room moves, in each
  // coordinate, by the offset of its MapDirection if that is known, else of its name.
  lemma PlacedByExit(posDeltas: Directions, world: World, root: int, r: int, pos: Delta, n: nat) returns (p: int, q: Delta, e: string)
    requires PlacedBy(posDeltas, world, root, r, pos, n) && n > 0
    ensures PlacedBy(posDeltas, world, root, p, q, n - 1) && p in world.rooms && e in world.rooms[p]
    ensures world.Target(world.rooms[p][e].roomId) == r
    ensures var mark := world.rooms[p][e].mapDirection;
            && (mark in posDeltas || e in posDeltas)
            && (var d := if mark in posDeltas then posDeltas[mark] else posDeltas[e];
                pos.x == q.x + d.x && pos.y == q.y + d.y && pos.z == q.z + d.z)
  {
    p, q, e :| StepTo(posDeltas, world, p, q, e, r, pos) && PlacedBy(posDeltas, world, root, p, q, n - 1);
  }

  class MapNode {
    const roomId: int
    const exits: map<string, NodeExit>
    var pos: Delta

    constructor (roomId: int, exits: map<string, NodeExit>, pos: Delta)
      ensures this.roomId == roomId && this.exits == exits && this.pos == pos
    {
      this.roomId, this.exits, this.pos := roomId, exits, pos;
    }
  }

  datatype CrawlRoom = CrawlRoom(roomId: int, pos: Delta)

  // The bounding box met so far.
  datatype Box = Box(minX: int, maxX: int, minY: int, maxY: int, minZ: int, maxZ: int) {
    ghost predicate Holds(p: Delta) {
      minX <= p.x <= maxX && minY <= p.y <= maxY && minZ <= p.z <= maxZ
    }

    // The comparisons of Start: a bound moves when the position is outside it.
    function Widen(p: Delta): Box {
      Box(if p.x < minX then p.x else minX, if p.x < minX then maxX else if p.x > maxX then p.x else maxX,
          if p.y < minY then p.y else minY, if p.y < minY then maxY else if p.y > maxY then p.y else maxY,
          if p.z < minZ then p.z else minZ, if p.z < minZ then maxZ else if p.z > maxZ then p.z else maxZ)
    }
  }

  // ---------- the crawl as a breadth-first search ----------

  // An entry of the queue with the id of the room that is loaded for it
  function Resolved(world: World, c: CrawlRoom): CrawlRoom {
    c.(roomId := world.Target(c.roomId))
  }

  // The entries of the queue that discover a room: for each loadable room not in skip, the first.
  ghost function Firsts(world: World, queue: seq<CrawlRoom>, skip: set<int>): seq<CrawlRoom>
    decreases |queue|
  {
    if queue == [] then []
    else
      var c := Resolved(world, queue[0]);
      if c.roomId !in world.rooms || c.roomId in skip then Firsts(world, queue[1..], skip)
      else [c] + Firsts(world, queue[1..], skip + {c.roomId})
  }

  function Ids(queue: seq<CrawlRoom>): (ids: seq<int>)
    ensures |ids| == |queue|
  {
    if queue == [] then [] else [queue[0].roomId] + Ids(queue[1..])
  }

  lemma {:induction false} IdsAppend(queue: seq<CrawlRoom>, c: CrawlRoom)
    ensures Ids(queue + [c]) == Ids(queue) + [c.roomId]
  {
    if queue == [] {
      assert [] + [c] == [c];
    } else {
      assert (queue + [c])[1..] == queue[1..] + [c];
      IdsAppend(queue[1..], c);
    }
  }

  // An entry added at the end discovers its room if no earlier one does.
  lemma {:induction false} FirstsAppend(world: World, queue: seq<CrawlRoom>, skip: set<int>, c: CrawlRoom)
    ensures var r := Resolved(world, c);
            Firsts(world, queue + [c], skip) ==
            if r.roomId !in world.rooms || r.roomId in skip || r.roomId in Ids(Firsts(world, queue, skip)) then Firsts(world, queue, skip)
            else Firsts(world, queue, skip) + [r]
    decreases |queue|
  {
    if queue == [] {
      assert [] + [c] == [c] && [c][1..] == [];
    } else {
      assert (queue + [c])[1..] == queue[1..] + [c];
      var f := Resolved(world, queue[0]);
      if f.roomId !in world.rooms || f.roomId in skip {
        FirstsAppend(world, queue[1..], skip, c);
      } else {
        var rest := Firsts(world, queue[1..], skip + {f.roomId});
        FirstsAppend(world, queue[1..], skip + {f.roomId}, c);
        assert [f] + (rest + [Resolved(world, c)]) == [f] + rest + [Resolved(world, c)];
        assert ([f] + rest)[1..] == rest;
      }
    }
  }

  lemma {:induction false} FirstsAreNew(world: World, queue: seq<CrawlRoom>, skip: set<int>)
    ensures forall r :: r in Ids(Firsts(world, queue, skip)) ==> r !in skip
    decreases |queue|
  {
    if queue != [] {
      var f := Resolved(world, queue[0]);
      if f.roomId !in world.rooms || f.roomId in skip {
        FirstsAreNew(world, queue[1..], skip);
      } else {
        FirstsAreNew(world, queue[1..], skip + {f.roomId});
        assert ([f] + Firsts(world, queue[1..], skip + {f.roomId}))[1..] == Firsts(world, queue[1..], skip + {f.roomId});
      }
    }
  }

  // Seen rooms and those waiting are labelled, and placed by a walk as long as the label.
  ghost predicate Marked(posDeltas: Directions, world: World, root: int, seen: map<int, Delta>, waiting: seq<CrawlRoom>, d: map<int, nat>) {
    && seen.Keys <= world.rooms.Keys && START_ROOM_ID_ALIAS !in seen
    && (forall r :: r in d <==> r in seen || r in Ids(waiting))
    && (forall r :: r in seen ==> PlacedBy(posDeltas, world, root, r, seen[r], d[r]))
    && (forall i :: 0 <= i < |waiting| ==>
          waiting[i].roomId in d && PlacedBy(posDeltas, world, root, waiting[i].roomId, waiting[i].pos, d[waiting[i].roomId]))
  }

  // Everything the crawl keeps between two rooms: the waiting rooms are the queue of a breadth-first search.
  ghost predicate Crawling(posDeltas: Directions, world: World, root: int, seen: map<int, Delta>, queue: seq<CrawlRoom>, d: map<int, nat>) {
    var waiting := Firsts(world, queue, seen.Keys);
    && Marked(posDeltas, world, root, seen, waiting, d)
    && if world.Loads(root) then Bfs(GraphOf(posDeltas, world), world.Target(root), d, Ids(waiting)) else d == map[]
  }

  // The same while the exits in todo of room cur, just discovered, are still to be followed.
  ghost predicate CrawlingAt(posDeltas: Directions, world: World, root: int, seen: map<int, Delta>, queue: seq<CrawlRoom>, d: map<int, nat>,
                             cur: int, todo: set<string>) {
    var waiting := Firsts(world, queue, seen.Keys);
    && Marked(posDeltas, world, root, seen, waiting, d)
    && cur in seen && world.Loads(root) && BfsAt(GraphOf(posDeltas, world), world.Target(root), d, Ids(waiting), cur)
    && forall e :: e in NodeExits(posDeltas, world.rooms[cur]) && e !in todo && world.Loads(NodeExits(posDeltas, world.rooms[cur])[e].roomId) ==>
         world.Target(NodeExits(posDeltas, world.rooms[cur])[e].roomId) in d
  }

  lemma CrawlBegin(posDeltas: Directions, world: World, root: int) returns (d: map<int, nat>)
    ensures Crawling(posDeltas, world, root, map[], [CrawlRoom(root, ORIGIN)], d)
  {
    var queue := [CrawlRoom(root, ORIGIN)];
    var t := world.Target(root);
    assert queue[1..] == [];
    assert PlacedBy(posDeltas, world, root, t, ORIGIN, 0);
    if world.Loads(root) {
      d := map[t := 0];
      BfsStart(GraphOf(posDeltas, world), t);
      assert Firsts(world, queue, {}) == [CrawlRoom(t, ORIGIN)];
      assert Ids([CrawlRoom(t, ORIGIN)]) == [t];
    } else {
      d := map[];
    }
  }

  // Taking the next entry off the queue loses nothing if its room is seen or cannot be loaded.
  lemma CrawlSkip(posDeltas: Directions, world: World, root: int, seen: map<int, Delta>, queue: seq<CrawlRoom>, d: map<int, nat>)
    requires Crawling(posDeltas, world, root, seen, queue, d) && |queue| > 0
    requires world.Target(queue[0].roomId) in seen || !world.Loads(queue[0].roomId)
    ensures Crawling(posDeltas, world, root, seen, queue[1..], d)
  {
    hide Marked, Bfs, GraphOf;
  }

  lemma CrawlVisit(posDeltas: Directions, world: World, root: int, seen: map<int, Delta>, queue: seq<CrawlRoom>, d: map<int, nat>)
    requires Crawling(posDeltas, world, root, seen, queue, d) && |queue| > 0
    requires world.Loads(queue[0].roomId) && world.Target(queue[0].roomId) !in seen
    ensures var r := world.Target(queue[0].roomId);
            CrawlingAt(posDeltas, world, root, seen[r := queue[0].pos], queue[1..], d, r, NodeExits(posDeltas, world.rooms[r]).Keys)
  {
    hide GraphOf, NodeExits, Bfs, BfsAt, PlacedBy, Firsts, Marked;
    var c := Resolved(world, queue[0]);
    var rest := Firsts(world, queue[1..], seen.Keys + {c.roomId});
    assert seen[c.roomId := queue[0].pos].Keys == seen.Keys + {c.roomId};
    FirstsVisit(world, queue, seen.Keys);
    MarkedVisit(posDeltas, world, root, seen, c, rest, d);
    BfsTake(GraphOf(posDeltas, world), world.Target(root), d, Ids([c] + rest));
  }

  lemma FirstsVisit(world: World, queue: seq<CrawlRoom>, skip: set<int>)
    requires |queue| > 0 && world.Loads(queue[0].roomId) && world.Target(queue[0].roomId) !in skip
    ensures var c := Resolved(world, queue[0]);
            Firsts(world, queue, skip) == [c] + Firsts(world, queue[1..], skip + {c.roomId})
  {
  }

  lemma MarkedVisit(posDeltas: Directions, world: World, root: int, seen: map<int, Delta>, c: CrawlRoom, rest: seq<CrawlRoom>, d: map<int, nat>)
    requires Marked(posDeltas, world, root, seen, [c] + rest, d) && c.roomId in world.rooms && c.roomId != START_ROOM_ID_ALIAS
    requires c.roomId !in seen
    ensures Marked(posDeltas, world, root, seen[c.roomId := c.pos], rest, d)
    ensures c.roomId in d && Ids([c] + rest) == [c.roomId] + Ids(rest) && ([c.roomId] + Ids(rest))[1..] == Ids(rest) && d != map[]
  {
    hide PlacedBy, Ids;
    var waiting, seen' := [c] + rest, seen[c.roomId := c.pos];
    IdsFirst(c, rest);
    assert waiting[0] == c;
    forall i | 0 <= i < |rest|
      ensures rest[i].roomId in d && PlacedBy(posDeltas, world, root, rest[i].roomId, rest[i].pos, d[rest[i].roomId])
    {
      assert rest[i] == waiting[i + 1];
    }
    forall r | r in seen'
      ensures PlacedBy(posDeltas, world, root, r, seen'[r], d[r])
    {
      assert r != c.roomId ==> r in seen;
    }
  }

  lemma IdsFirst(c: CrawlRoom, rest: seq<CrawlRoom>)
    ensures Ids([c] + rest) == [c.roomId] + Ids(rest) && ([c.roomId] + Ids(rest))[1..] == Ids(rest)
    ensures forall r :: r in Ids([c] + rest) <==> r == c.roomId || r in Ids(rest)
  {
    assert ([c] + rest)[1..] == rest;
    var ids := [c.roomId] + Ids(rest);
    assert forall i :: 0 <= i < |Ids(rest)| ==> ids[i + 1] == Ids(rest)[i];
    assert ids[0] == c.roomId;
  }

  // What the loop over the exits does for an exit: nothing if a node has its id, else it is queued.
  function Followed(seen: map<int, Delta>, queue: seq<CrawlRoom>, pos: Delta, x: NodeExit): seq<CrawlRoom> {
    if x.roomId in seen then queue else queue + [CrawlRoom(x.roomId, pos.Combine(x.direction))]
  }

  // An exit of cur is dealt with.
  lemma CrawlExit(posDeltas: Directions, world: World, root: int, seen: map<int, Delta>, queue: seq<CrawlRoom>, d: map<int, nat>,
                  cur: int, todo: set<string>, e: string) returns (d': map<int, nat>)
    requires CrawlingAt(posDeltas, world, root, seen, queue, d, cur, todo) && e in todo && e in NodeExits(posDeltas, world.rooms[cur])
    ensures var queue' := Followed(seen, queue, seen[cur], NodeExits(posDeltas, world.rooms[cur])[e]);
            CrawlingAt(posDeltas, world, root, seen, queue', d', cur, todo - {e})
  {
    hide NodeExits, GraphOf, BfsAt, PlacedBy, Firsts;
    var x := NodeExits(posDeltas, world.rooms[cur])[e];
    var waiting := Firsts(world, queue, seen.Keys);
    d' := d;
    if x.roomId !in seen {
      var c := CrawlRoom(x.roomId, seen[cur].Combine(x.direction));
      var r := Resolved(world, c);
      FirstsAppend(world, queue, seen.Keys, c);
      if r.roomId in world.rooms && r.roomId !in seen && r.roomId !in Ids(waiting) {
        IdsAppend(waiting, r);
        IsNeighbour(posDeltas, world, cur, e);
        BfsVisit(GraphOf(posDeltas, world), world.Target(root), d, Ids(waiting), cur, r.roomId);
        PlacedStep(posDeltas, world, root, cur, seen[cur], e, d[cur]);
        d' := d[r.roomId := d[cur] + 1];
        MarkedNext(posDeltas, world, root, seen, waiting, d, r, d[cur] + 1);
      }
    }
  }

  lemma MarkedNext(posDeltas: Directions, world: World, root: int, seen: map<int, Delta>, waiting: seq<CrawlRoom>, d: map<int, nat>,
                   c: CrawlRoom, n: nat)
    requires Marked(posDeltas, world, root, seen, waiting, d) && c.roomId !in d
    requires PlacedBy(posDeltas, world, root, c.roomId, c.pos, n)
    ensures Marked(posDeltas, world, root, seen, waiting + [c], d[c.roomId := n])
  {
    hide PlacedBy;
    IdsAppend(waiting, c);
  }

  lemma IsNeighbour(posDeltas: Directions, world: World, r: int, e: string)
    requires r in world.rooms && r != START_ROOM_ID_ALIAS && e in NodeExits(posDeltas, world.rooms[r])
    requires world.Loads(NodeExits(posDeltas, world.rooms[r])[e].roomId)
    ensures var t := world.Target(NodeExits(posDeltas, world.rooms[r])[e].roomId);
            r in GraphOf(posDeltas, world) && t in GraphOf(posDeltas, world) && t in GraphOf(posDeltas, world)[r]
  {
  }

  lemma CrawlReady(posDeltas: Directions, world: World, root: int, seen: map<int, Delta>, queue: seq<CrawlRoom>, d: map<int, nat>, cur: int)
    requires CrawlingAt(posDeltas, world, root, seen, queue, d, cur, {})
    ensures Crawling(posDeltas, world, root, seen, queue, d)
  {
    hide BfsAt, Bfs, PlacedBy, Firsts, NodeExits;
    var g := GraphOf(posDeltas, world);
    forall w | w in g[cur]
      ensures w in d
    {
      var e :| e in NodeExits(posDeltas, world.rooms[cur]) && world.Loads(NodeExits(posDeltas, world.rooms[cur])[e].roomId)
               && world.Target(NodeExits(posDeltas, world.rooms[cur])[e].roomId) == w;
    }
    BfsDone(g, world.Target(root), d, Ids(Firsts(world, queue, seen.Keys)), cur);
  }

  // Following an exit of a room seen before discovers nothing.
  lemma CrawlKnown(posDeltas: Directions, world: World, root: int, seen: map<int, Delta>, queue: seq<CrawlRoom>, d: map<int, nat>,
                   cur: int, e: string, pos: Delta)
    requires Crawling(posDeltas, world, root, seen, queue, d)
    requires cur in seen && e in NodeExits(posDeltas, world.rooms[cur])
    ensures Crawling(posDeltas, world, root, seen, Followed(seen, queue, pos, NodeExits(posDeltas, world.rooms[cur])[e]), d)
  {
    hide NodeExits, GraphOf, PlacedBy, Firsts, Labelled, QueueOrdered;
    var x := NodeExits(posDeltas, world.rooms[cur])[e];
    var waiting := Firsts(world, queue, seen.Keys);
    FirstsAppend(world, queue, seen.Keys, CrawlRoom(x.roomId, pos.Combine(x.direction)));
    FirstsAreNew(world, queue, seen.Keys);
    if world.Loads(x.roomId) {
      IsNeighbour(posDeltas, world, cur, e);
      assert cur in d && Settled(GraphOf(posDeltas, world), d, cur);
    }
  }

  // With nothing queued, exactly the rooms reachable from the root have been seen, each placed by a
  // shortest walk.
  lemma CrawlComplete(posDeltas: Directions, world: World, root: int, seen: map<int, Delta>, d: map<int, nat>)
    requires Crawling(posDeltas, world, root, seen, [], d)
    ensures forall r :: r in seen <==> Reach(GraphOf(posDeltas, world), world.Target(root), r)
    ensures forall r :: r in seen ==> Placed(posDeltas, world, root, r, seen[r])
  {
    hide PlacedBy, IsDist, Bfs;
    var g, t := GraphOf(posDeltas, world), world.Target(root);
    if world.Loads(root) {
      BfsFinished(g, t, d);
    } else {
      forall r
        ensures !Reach(g, t, r)
      {
        if n: nat :| ReachIn(g, t, r, n) {
          StartsInGraph(g, t, r, n);
        }
      }
    }
  }

  lemma SeenIsReached(posDeltas: Directions, world: World, root: int, seen: map<int, Delta>, queue: seq<CrawlRoom>, d: map<int, nat>, r: int)
    requires Crawling(posDeltas, world, root, seen, queue, d) && r in seen
    ensures Reach(GraphOf(posDeltas, world), world.Target(root), r)
  {
    hide ReachIn, PlacedBy, QueueOrdered, Settled, Firsts;
    assert ReachIn(GraphOf(posDeltas, world), world.Target(root), r, d[r]);
  }

  lemma {:induction false} StartsInGraph(g: Graph<int>, a: int, b: int, n: nat)
    requires ReachIn(g, a, b, n)
    ensures a in g
  {
  }

  // The least box around the root and the positions of the entries
  ghost predicate BoxOf(box: Box, entries: set<CrawlRoom>) {
    && (forall c :: c in entries ==> box.Holds(c.pos))
    && (exists c :: c in entries && c.pos.x == box.minX) && (exists c :: c in entries && c.pos.x == box.maxX)
    && (exists c :: c in entries && c.pos.y == box.minY) && (exists c :: c in entries && c.pos.y == box.maxY)
    && (exists c :: c in entries && c.pos.z == box.minZ) && (exists c :: c in entries && c.pos.z == box.maxZ)
  }

  lemma BoxWiden(box: Box, entries: set<CrawlRoom>, c: CrawlRoom)
    requires BoxOf(box, entries)
    ensures BoxOf(box.Widen(c.pos), entries + {c})
  {
    var box', entries' := box.Widen(c.pos), entries + {c};
    assert c in entries' && entries <= entries';
  }

  // Some walk from the root leads to the room, or would if it could be loaded, at this position.
  ghost predicate Walked(posDeltas: Directions, world: World, root: int, c: CrawlRoom) {
    exists n: nat :: PlacedBy(posDeltas, world, root, world.Target(c.roomId), c.pos, n)
  }

  // entries were queued at some time, each after a walk; every node is where one of them was; the box is
  // the least around them.
  ghost predicate Boxed(posDeltas: Directions, world: World, root: int, box: Box, at: map<int, Delta>, entries: set<CrawlRoom>,
                        queue: seq<CrawlRoom>) {
    && BoxOf(box, entries) && (forall c :: c in entries ==> Walked(posDeltas, world, root, c))
    && (forall r :: r in at ==> EntryAt(world, entries, r, at[r]))
    && (forall i :: 0 <= i < |queue| ==> queue[i] in entries)
  }

  ghost predicate EntryAt(world: World, entries: set<CrawlRoom>, r: int, pos: Delta) {
    exists c :: c in entries && world.Target(c.roomId) == r && c.pos == pos
  }

  lemma BoxedSkip(posDeltas: Directions, world: World, root: int, box: Box, at: map<int, Delta>, entries: set<CrawlRoom>, queue: seq<CrawlRoom>)
    requires Boxed(posDeltas, world, root, box, at, entries, queue) && |queue| > 0
    ensures Boxed(posDeltas, world, root, box, at, entries, queue[1..])
  {
    hide BoxOf, Walked, EntryAt;
  }

  lemma BoxedVisit(posDeltas: Directions, world: World, root: int, box: Box, at: map<int, Delta>, entries: set<CrawlRoom>, queue: seq<CrawlRoom>)
    requires Boxed(posDeltas, world, root, box, at, entries, queue) && |queue| > 0
    ensures Boxed(posDeltas, world, root, box, at[world.Target(queue[0].roomId) := queue[0].pos], entries, queue[1..])
    ensures Walked(posDeltas, world, root, queue[0])
  {
    hide BoxOf, Walked;
  }

  lemma BoxedWider(posDeltas: Directions, world: World, root: int, box: Box, at: map<int, Delta>, entries: set<CrawlRoom>, queue: seq<CrawlRoom>,
                   c: CrawlRoom)
    requires Boxed(posDeltas, world, root, box, at, entries, queue) && Walked(posDeltas, world, root, c)
    ensures Boxed(posDeltas, world, root, box.Widen(c.pos), at, entries + {c}, queue + [c])
  {
    hide BoxOf, Walked, EntryAt;
    BoxWiden(box, entries, c);
    forall r | r in at
      ensures EntryAt(world, entries + {c}, r, at[r])
    {
      EntryStays(world, entries, c, r, at[r]);
    }
  }

  lemma EntryStays(world: World, entries: set<CrawlRoom>, c: CrawlRoom, r: int, pos: Delta)
    requires EntryAt(world, entries, r, pos)
    ensures EntryAt(world, entries + {c}, r, pos)
  {
  }

  lemma HoldsNodes(posDeltas: Directions, world: World, root: int, box: Box, at: map<int, Delta>, entries: set<CrawlRoom>)
    requires Boxed(posDeltas, world, root, box, at, entries, [])
    ensures box.minX <= box.maxX && box.minY <= box.maxY && box.minZ <= box.maxZ
    ensures forall r :: r in at ==> box.Holds(at[r])
  {
    hide Walked;
  }

  lemma InShifted(box: Box, p: Delta, offset: Delta)
    requires box.Holds(p)
    ensures var q := Minus(p, offset);
            && 0 <= q.x + (offset.x - box.minX) < box.maxX - box.minX + 1
            && 0 <= q.y + (offset.y - box.minY) < box.maxY - box.minY + 1
            && 0 <= q.z + (offset.z - box.minZ) < box.maxZ - box.minZ + 1
  {
  }

  lemma WalkedOn(posDeltas: Directions, world: World, root: int, c: CrawlRoom, e: string)
    requires Walked(posDeltas, world, root, c) && world.Loads(c.roomId) && e in NodeExits(posDeltas, world.rooms[world.Target(c.roomId)])
    ensures var x := NodeExits(posDeltas, world.rooms[world.Target(c.roomId)])[e];
            Walked(posDeltas, world, root, CrawlRoom(x.roomId, c.pos.Combine(x.direction)))
  {
    hide NodeExits;
    var n: nat :| PlacedBy(posDeltas, world, root, world.Target(c.roomId), c.pos, n);
    PlacedStep(posDeltas, world, root, world.Target(c.roomId), c.pos, e, n);
  }

  // ---------- the ids taken off the queue ----------

  ghost function QueueIds(queue: seq<CrawlRoom>): set<int> {
    set i | 0 <= i < |queue| :: queue[i].roomId
  }

  lemma QueueIdsAppend(queue: seq<CrawlRoom>, c: CrawlRoom)
    ensures QueueIds(queue + [c]) == QueueIds(queue) + {c.roomId}
  {
    var after := queue + [c];
    assert after[|queue|] == c;
    assert forall i :: 0 <= i < |queue| ==> after[i] == queue[i];
  }

  lemma QueueIdsRest(queue: seq<CrawlRoom>)
    requires |queue| > 0
    ensures QueueIds(queue) == {queue[0].roomId} + QueueIds(queue[1..])
  {
    var rest := queue[1..];
    assert forall i :: 0 <= i < |rest| ==> rest[i] == queue[i + 1];
    assert forall i :: 0 < i < |queue| ==> queue[i] == rest[i - 1];
  }

  ghost function Elements(s: seq<int>): set<int> {
    set x | x in s
  }

  lemma ElementsAppend(s: seq<int>, x: int)
    ensures Elements(s + [x]) == Elements(s) + {x}
    ensures s != [] ==> (s + [x])[0] == s[0] && Elements((s + [x])[1..]) == Elements(s[1..]) + {x}
  {
    if s != [] {
      assert (s + [x])[1..] == s[1..] + [x];
    }
  }

  // The ids that the exits of the crawled rooms name
  ghost function Named(posDeltas: Directions, world: World, crawled: set<int>): set<int> {
    set r, e | r in crawled && r in world.rooms && e in NodeExits(posDeltas, world.rooms[r]) :: NodeExits(posDeltas, world.rooms[r])[e].roomId
  }

  // The ids that the exits in done name
  function TargetsOf(exits: map<string, NodeExit>, done: set<string>): set<int> {
    set e | e in exits && e in done :: exits[e].roomId
  }

  lemma NoTargets(exits: map<string, NodeExit>)
    ensures TargetsOf(exits, {}) == {}
  {
  }

  lemma TargetsNext(exits: map<string, NodeExit>, done: set<string>, e: string)
    requires e in exits
    ensures TargetsOf(exits, done + {e}) == TargetsOf(exits, done) + {exits[e].roomId}
  {
  }

  lemma NamedBy(posDeltas: Directions, world: World, crawled: set<int>, r: int)
    requires r in world.rooms
    ensures var exits := NodeExits(posDeltas, world.rooms[r]);
            Named(posDeltas, world, crawled + {r}) == Named(posDeltas, world, crawled) + TargetsOf(exits, exits.Keys)
  {
    hide NodeExits;
  }

  // The ids taken are the root and those the crawled rooms' exits name; a node's own id need not be taken
  // when the node is that of the start room and 0 was.
  ghost predicate Tracked(posDeltas: Directions, world: World, root: int, crawled: set<int>, queue: seq<CrawlRoom>, taken: seq<int>) {
    && Elements(taken) + QueueIds(queue) <= {root} + Named(posDeltas, world, crawled)
    && {root} + Named(posDeltas, world, crawled) <= Elements(taken) + QueueIds(queue) + crawled
    && (forall r :: r in crawled ==> r in taken || (r == world.StartRoom() && START_ROOM_ID_ALIAS in taken))
    && (START_ROOM_ID_ALIAS in taken && world.StartRoom() in world.rooms ==> world.StartRoom() in crawled)
    && (if taken == [] then crawled == {} && queue == [CrawlRoom(root, ORIGIN)]
        else taken[0] == root && Elements(taken[1..]) + QueueIds(queue) <= Named(posDeltas, world, crawled))
  }

  lemma TrackedBegin(posDeltas: Directions, world: World, root: int)
    ensures Tracked(posDeltas, world, root, {}, [CrawlRoom(root, ORIGIN)], [])
  {
    var queue := [CrawlRoom(root, ORIGIN)];
    assert queue[0].roomId == root;
    assert QueueIds(queue) == {root};
  }

  lemma TrackedSkip(posDeltas: Directions, world: World, root: int, crawled: set<int>, queue: seq<CrawlRoom>, taken: seq<int>)
    requires Tracked(posDeltas, world, root, crawled, queue, taken) && |queue| > 0
    requires world.Target(queue[0].roomId) in crawled || !world.Loads(queue[0].roomId)
    ensures Tracked(posDeltas, world, root, crawled, queue[1..], taken + [queue[0].roomId])
  {
    hide Named, QueueIds, Elements;
    QueueIdsRest(queue);
    ElementsAppend(taken, queue[0].roomId);
    Taken(queue, taken, queue[0].roomId);
  }

  lemma Taken(queue: seq<CrawlRoom>, taken: seq<int>, id: int)
    ensures QueueIds([]) == {} && Elements([]) == {}
    ensures |queue| == 1 ==> queue[1..] == []
    ensures taken == [] ==> (taken + [id])[1..] == []
    ensures forall x :: x in taken + [id] <==> x in taken || x == id
  {
  }

  // The room taken off the queue is crawled, and the ids its exits name join the queue.
  lemma TrackedVisit(posDeltas: Directions, world: World, root: int, crawled: set<int>, queue: seq<CrawlRoom>, queue': seq<CrawlRoom>,
                     taken: seq<int>, r: int)
    requires Tracked(posDeltas, world, root, crawled, queue, taken) && |queue| > 0
    requires r == world.Target(queue[0].roomId) && r in world.rooms
    requires var exits := NodeExits(posDeltas, world.rooms[r]);
             && crawled + {r} + QueueIds(queue') == crawled + {r} + QueueIds(queue[1..]) + TargetsOf(exits, exits.Keys)
             && QueueIds(queue') <= QueueIds(queue[1..]) + TargetsOf(exits, exits.Keys)
    ensures Tracked(posDeltas, world, root, crawled + {r}, queue', taken + [queue[0].roomId])
  {
    hide Named, QueueIds, Elements, NodeExits, TargetsOf;
    QueueIdsRest(queue);
    ElementsAppend(taken, queue[0].roomId);
    Taken(queue, taken, queue[0].roomId);
    NamedBy(posDeltas, world, crawled, r);
  }

  // The comparison of Start, over the ids taken: 0 counts as no id yet.
  function LowestOf(taken: seq<int>): int {
    if taken == [] then 0
    else
      var l, id := LowestOf(taken[..|taken| - 1]), taken[|taken| - 1];
      if l == 0 || id < l then id else l
  }

  // It finds the least id if and only if 0 is not among them, or a negative one is, or 0 comes last.
  lemma LowestIsLeast(taken: seq<int>)
    requires taken != []
    ensures LowestOf(taken) in taken && (forall id :: id in taken ==> LowestOf(taken) <= id)
        <==> 0 !in taken || (exists id :: id in taken && id < 0) || taken[|taken| - 1] == 0
  {
    LowestIs(taken);
  }

  lemma {:induction false} LowestIs(taken: seq<int>)
    requires taken != []
    ensures LowestOf(taken) in taken
    ensures 0 !in taken || (exists id :: id in taken && id < 0) ==> forall id :: id in taken ==> LowestOf(taken) <= id
    ensures (forall id :: id in taken ==> id >= 0) ==> LowestOf(taken) >= 0
    ensures (forall id :: id in taken ==> id >= 0) && LowestOf(taken) == 0 ==> taken[|taken| - 1] == 0
    ensures taken[|taken| - 1] == 0 ==> LowestOf(taken) <= 0
  {
    var n := |taken| - 1;
    if n > 0 {
      LowestIs(taken[..n]);
      assert taken == taken[..n] + [taken[n]];
    }
  }

  // ---------- the start room, crawled again ----------

  // The start room has an exit that leads to room 0, and so back to itself.
  ghost predicate Loops(posDeltas: Directions, world: World) {
    && world.StartRoom() in world.rooms
    && START_ROOM_ID_ALIAS in TargetsOf(NodeExits(posDeltas, world.rooms[world.StartRoom()]),
                                        NodeExits(posDeltas, world.rooms[world.StartRoom()]).Keys)
  }

  // The crawl never ends: no node ever has id 0, so the loop is queued again each time it is followed.
  ghost predicate Endless(posDeltas: Directions, world: World, root: int) {
    Loops(posDeltas, world) && Reach(GraphOf(posDeltas, world), world.Target(root), world.StartRoom())
  }

  // Until the start room is seen no loop has been followed.
  ghost predicate Calm(posDeltas: Directions, world: World, seen: map<int, Delta>) {
    world.StartRoom() !in seen || !Loops(posDeltas, world)
  }

  // pos is where an exit to room 0 leads from a room seen other than the start room.
  ghost predicate Beside(posDeltas: Directions, world: World, seen: map<int, Delta>, pos: Delta) {
    exists p, e ::
      && p in seen && p in world.rooms && p != world.StartRoom() && e in NodeExits(posDeltas, world.rooms[p])
      && NodeExits(posDeltas, world.rooms[p])[e].roomId == START_ROOM_ID_ALIAS
      && pos == seen[p].Combine(NodeExits(posDeltas, world.rooms[p])[e].direction)
  }

  ghost predicate ZerosBeside(posDeltas: Directions, world: World, seen: map<int, Delta>, queue: seq<CrawlRoom>) {
    forall i :: 0 <= i < |queue| && queue[i].roomId == START_ROOM_ID_ALIAS ==> Beside(posDeltas, world, seen, queue[i].pos)
  }

  lemma BesideGrows(posDeltas: Directions, world: World, seen: map<int, Delta>, r: int, q: Delta, queue: seq<CrawlRoom>)
    requires r !in seen
    ensures forall pos :: Beside(posDeltas, world, seen, pos) ==> Beside(posDeltas, world, seen[r := q], pos)
    ensures ZerosBeside(posDeltas, world, seen, queue) ==> ZerosBeside(posDeltas, world, seen[r := q], queue)
  {
    hide NodeExits;
    forall pos | Beside(posDeltas, world, seen, pos)
      ensures Beside(posDeltas, world, seen[r := q], pos)
    {
      var p, e :|
        && p in seen && p in world.rooms && p != world.StartRoom() && e in NodeExits(posDeltas, world.rooms[p])
        && NodeExits(posDeltas, world.rooms[p])[e].roomId == START_ROOM_ID_ALIAS
        && pos == seen[p].Combine(NodeExits(posDeltas, world.rooms[p])[e].direction);
      assert p in seen[r := q] && seen[r := q][p] == seen[p];
    }
  }

  lemma ZerosFollow(posDeltas: Directions, world: World, seen: map<int, Delta>, queue: seq<CrawlRoom>, pos: Delta, cur: int, e: string)
    requires ZerosBeside(posDeltas, world, seen, queue) && Calm(posDeltas, world, seen)
    requires cur in seen && cur in world.rooms && e in NodeExits(posDeltas, world.rooms[cur]) && (pos == seen[cur] || cur == world.StartRoom())
    ensures ZerosBeside(posDeltas, world, seen, Followed(seen, queue, pos, NodeExits(posDeltas, world.rooms[cur])[e]))
  {
    hide NodeExits;
    var x := NodeExits(posDeltas, world.rooms[cur])[e];
    if x.roomId == START_ROOM_ID_ALIAS {
      assert cur == world.StartRoom() ==> x.roomId in TargetsOf(NodeExits(posDeltas, world.rooms[cur]), NodeExits(posDeltas, world.rooms[cur]).Keys);
      assert Beside(posDeltas, world, seen, pos.Combine(x.direction));
    }
  }

  // What the crawl has done so far: where the rooms were discovered, where their nodes are now, the labels of
  // the search, the ids taken off the queue, and all entries ever queued.
  datatype Trace = Trace(seen: map<int, Delta>, at: map<int, Delta>, d: map<int, nat>, taken: seq<int>, entries: set<CrawlRoom>)

  // 0 was taken other than as the root.
  ghost predicate Again(taken: seq<int>) {
    taken != [] && START_ROOM_ID_ALIAS in taken[1..]
  }

  // Nodes are where their rooms were discovered, but the start room's is where 0 was met last.
  ghost predicate Replaced(posDeltas: Directions, world: World, t: Trace, queue: seq<CrawlRoom>) {
    && t.at.Keys == t.seen.Keys <= world.rooms.Keys
    && (forall r :: r in t.seen && r != world.StartRoom() ==> t.at[r] == t.seen[r])
    && (!Again(t.taken) ==> t.at == t.seen)
    && (Calm(posDeltas, world, t.seen) && t.taken != [] ==> ZerosBeside(posDeltas, world, t.seen, queue))
    && (Calm(posDeltas, world, t.seen) && Again(t.taken) && world.StartRoom() in t.at ==>
          Beside(posDeltas, world, t.seen, t.at[world.StartRoom()]))
  }

  ghost predicate OnCourse(posDeltas: Directions, world: World, root: int, t: Trace, queue: seq<CrawlRoom>) {
    && Crawling(posDeltas, world, root, t.seen, queue, t.d)
    && Tracked(posDeltas, world, root, t.seen.Keys, queue, t.taken)
    && Replaced(posDeltas, world, t, queue)
  }

  lemma CourseBegin(posDeltas: Directions, world: World, root: int) returns (t: Trace)
    ensures OnCourse(posDeltas, world, root, t, [CrawlRoom(root, ORIGIN)])
    ensures t.seen == t.at == map[] && t.taken == [] && t.entries == {CrawlRoom(root, ORIGIN)}
  {
    hide Crawling, Tracked, ZerosBeside, Beside, Loops;
    var d := CrawlBegin(posDeltas, world, root);
    TrackedBegin(posDeltas, world, root);
    t := Trace(map[], map[], d, [], {CrawlRoom(root, ORIGIN)});
    assert t.seen.Keys == {};
  }

  lemma CourseSkip(posDeltas: Directions, world: World, root: int, t: Trace, queue: seq<CrawlRoom>)
    requires OnCourse(posDeltas, world, root, t, queue) && |queue| > 0
    requires queue[0].roomId in t.seen || !world.Loads(queue[0].roomId)
    ensures OnCourse(posDeltas, world, root, t.(taken := t.taken + [queue[0].roomId]), queue[1..])
  {
    hide Crawling, Tracked;
    SeenAreRooms(posDeltas, world, root, t, queue);
    CrawlSkip(posDeltas, world, root, t.seen, queue, t.d);
    TrackedSkip(posDeltas, world, root, t.seen.Keys, queue, t.taken);
    ReplacedSkip(posDeltas, world, t, queue);
  }

  lemma SeenAreRooms(posDeltas: Directions, world: World, root: int, t: Trace, queue: seq<CrawlRoom>)
    requires OnCourse(posDeltas, world, root, t, queue)
    ensures t.seen.Keys <= world.rooms.Keys && START_ROOM_ID_ALIAS !in t.seen
    ensures forall r :: r in t.seen ==> world.Target(r) == r
    ensures t.taken == [] ==> t.seen == map[] && |queue| == 1
    ensures START_ROOM_ID_ALIAS in t.taken && world.StartRoom() in world.rooms ==> world.StartRoom() in t.seen
  {
    hide PlacedBy, Bfs, Replaced, Named, QueueIds, Elements;
  }

  lemma ReplacedSkip(posDeltas: Directions, world: World, t: Trace, queue: seq<CrawlRoom>)
    requires Replaced(posDeltas, world, t, queue) && |queue| > 0 && START_ROOM_ID_ALIAS !in t.seen
    requires queue[0].roomId in t.seen || !world.Loads(queue[0].roomId)
    requires t.taken == [] ==> |queue| == 1
    ensures Replaced(posDeltas, world, t.(taken := t.taken + [queue[0].roomId]), queue[1..])
  {
    hide Beside, Loops;
    var id := queue[0].roomId;
    if t.taken != [] {
      assert (t.taken + [id])[1..] == t.taken[1..] + [id];
    }
    assert forall i :: 0 <= i < |queue[1..]| ==> queue[1..][i] == queue[i + 1];
  }

  // The trace after a room is crawled that was taken off the queue as id at pos
  function Visited(world: World, t: Trace, id: int, pos: Delta, d: map<int, nat>, entries: set<CrawlRoom>): Trace {
    var r := world.Target(id);
    Trace(if r in t.seen then t.seen else t.seen[r := pos], t.at[r := pos], d, t.taken + [id], entries)
  }

  lemma CourseVisit(posDeltas: Directions, world: World, root: int, t: Trace, queue: seq<CrawlRoom>, t': Trace, queue': seq<CrawlRoom>)
    requires OnCourse(posDeltas, world, root, t, queue) && |queue| > 0
    requires queue[0].roomId !in t.seen && world.Loads(queue[0].roomId)
    requires t' == Visited(world, t, queue[0].roomId, queue[0].pos, t'.d, t'.entries)
    requires Crawling(posDeltas, world, root, t'.seen, queue', t'.d)
    requires var exits := NodeExits(posDeltas, world.rooms[world.Target(queue[0].roomId)]);
             && t'.seen.Keys + QueueIds(queue') == t'.seen.Keys + QueueIds(queue[1..]) + TargetsOf(exits, exits.Keys)
             && QueueIds(queue') <= QueueIds(queue[1..]) + TargetsOf(exits, exits.Keys)
    requires Calm(posDeltas, world, t'.seen) && ZerosBeside(posDeltas, world, t'.seen, queue[1..]) ==>
               ZerosBeside(posDeltas, world, t'.seen, queue')
    ensures OnCourse(posDeltas, world, root, t', queue')
  {
    hide Crawling, Tracked, QueueIds, TargetsOf, NodeExits, Calm, ZerosBeside, Replaced;
    var r := world.Target(queue[0].roomId);
    SeenAreRooms(posDeltas, world, root, t, queue);
    assert t'.seen.Keys == t.seen.Keys + {r};
    TrackedVisit(posDeltas, world, root, t.seen.Keys, queue, queue', t.taken, r);
    ReplacedVisit(posDeltas, world, t, queue, t', queue');
  }

  lemma ReplacedVisit(posDeltas: Directions, world: World, t: Trace, queue: seq<CrawlRoom>, t': Trace, queue': seq<CrawlRoom>)
    requires Replaced(posDeltas, world, t, queue) && |queue| > 0 && START_ROOM_ID_ALIAS !in t.seen
    requires queue[0].roomId !in t.seen && world.Loads(queue[0].roomId)
    requires t' == Visited(world, t, queue[0].roomId, queue[0].pos, t'.d, t'.entries)
    requires t.taken == [] ==> t.seen == map[] && |queue| == 1
    requires START_ROOM_ID_ALIAS in t.taken && world.StartRoom() in world.rooms ==> world.StartRoom() in t.seen
    requires Calm(posDeltas, world, t'.seen) && ZerosBeside(posDeltas, world, t'.seen, queue[1..]) ==>
               ZerosBeside(posDeltas, world, t'.seen, queue')
    ensures Replaced(posDeltas, world, t', queue')
  {
    hide Beside, Loops;
    var id, r := queue[0].roomId, world.Target(queue[0].roomId);
    if t.taken != [] {
      assert (t.taken + [id])[1..] == t.taken[1..] + [id];
    }
    assert forall i :: 0 <= i < |queue[1..]| ==> queue[1..][i] == queue[i + 1];
    if r !in t.seen {
      BesideGrows(posDeltas, world, t.seen, r, queue[0].pos, queue);
    }
  }

  // ---------- how often room 0 is still queued ----------

  function Zeros(queue: seq<CrawlRoom>): nat {
    multiset(Ids(queue))[START_ROOM_ID_ALIAS]
  }

  lemma ZerosAppend(queue: seq<CrawlRoom>, c: CrawlRoom)
    ensures Zeros(queue + [c]) == Zeros(queue) + if c.roomId == START_ROOM_ID_ALIAS then 1 else 0
  {
    IdsAppend(queue, c);
  }

  lemma ZerosRest(queue: seq<CrawlRoom>)
    requires |queue| > 0
    ensures Zeros(queue) == Zeros(queue[1..]) + if queue[0].roomId == START_ROOM_ID_ALIAS then 1 else 0
  {
  }

  // A turn of the loop gets nearer the end: a room is discovered, or room 0 is queued once less, or the queue
  // gets shorter.
  ghost predicate Nearer(t0: Trace, queue0: seq<CrawlRoom>, t: Trace, queue: seq<CrawlRoom>) {
    || t0.seen.Keys < t.seen.Keys
    || (t.seen == t0.seen && (Zeros(queue) < Zeros(queue0) || (Zeros(queue) == Zeros(queue0) && |queue| < |queue0|)))
  }

  // With a loop, once the start room is seen, room 0 is queued.
  ghost predicate Stuck(posDeltas: Directions, world: World, seen: map<int, Delta>, queue: seq<CrawlRoom>) {
    Loops(posDeltas, world) && (world.StartRoom() in seen ==> START_ROOM_ID_ALIAS in QueueIds(queue))
  }

  function Minus(a: Delta, b: Delta): Delta {
    Delta(a.x - b.x, a.y - b.y, a.z - b.z)
  }

  datatype Lookup = Found(roomId: int) | OutOfBounds | RoomNotFound

  // ---------- scanning in a direction ----------

  function Along(p: Delta, d: Delta, k: int): Delta {
    Delta(p.x + k * d.x, p.y + k * d.y, p.z + k * d.z)
  }

  lemma AlongSteps(p: Delta, d: Delta, k: int)
    ensures Along(p, d, 0) == p
    ensures Along(p, d, k + 1) == Along(p, d, k).Combine(d)
  {
    assert (k + 1) * d.x == k * d.x + d.x;
    assert (k + 1) * d.y == k * d.y + d.y;
    assert (k + 1) * d.z == k * d.z + d.z;
  }

  // What FindAdjacentRoom reports as the distance of a room at p
  function Reported(p: Delta): nat {
    if p.x != 0 then Abs(p.x) else if p.y != 0 then Abs(p.y) else Abs(p.z)
  }

  // A coordinate that starts at 0 and moves by one
  predicate FromZeroByOne(start: int, step: int) {
    start == 0 && (step == 1 || step == -1)
  }

  // The first coordinate that is not 0 throughout starts at 0 and moves by one.
  predicate CountsSteps(p: Delta, d: Delta) {
    if p.x != 0 || d.x != 0 then FromZeroByOne(p.x, d.x)
    else if p.y != 0 || d.y != 0 then FromZeroByOne(p.y, d.y)
    else FromZeroByOne(p.z, d.z)
  }

  // Any other coordinate that does not stay 0 is off after one step more than it started at.
  lemma CoordinateIsOff(start: int, step: int)
    requires (start != 0 || step != 0) && !FromZeroByOne(start, step)
    ensures var k := Abs(start) + 1; var c := start + k * step; c != 0 && Abs(c) != k
  {
    var k := Abs(start) + 1;
    if step >= 2 {
      assert k * step == 2 * k + k * (step - 2) && k * (step - 2) >= 0;
    } else if step <= -2 {
      assert k * step == -2 * k + k * (step + 2) && k * (step + 2) <= 0;
    }
  }

  lemma OnesAndZeros(k: int)
    ensures k * 1 == k && k * -1 == -k && k * 0 == 0
  {
  }

  // The distance reported is the number of steps taken, however many they are, if and only if the scan
  // starts where the coordinate it counts is 0 - not from an arbitrary room.
  lemma DistanceIsSteps(p: Delta, d: Delta)
    requires d != ORIGIN
    ensures (forall k: nat :: k >= 1 ==> Reported(Along(p, d, k)) == k) <==> CountsSteps(p, d)
  {
    if CountsSteps(p, d) {
      forall k: nat | k >= 1
        ensures Reported(Along(p, d, k)) == k
      {
        OnesAndZeros(k);
      }
    } else if p.x != 0 || d.x != 0 {
      CoordinateIsOff(p.x, d.x);
      var k := Abs(p.x) + 1;
      assert Reported(Along(p, d, k)) != k;
    } else if p.y != 0 || d.y != 0 {
      CoordinateIsOff(p.y, d.y);
      var k := Abs(p.y) + 1;
      OnesAndZeros(k);
      assert Reported(Along(p, d, k)) != k;
    } else {
      CoordinateIsOff(p.z, d.z);
      var k := Abs(p.z) + 1;
      OnesAndZeros(k);
      assert Reported(Along(p, d, k)) != k;
    }
  }

  // From (x, 0, 0) the room next door to the east is reported x + 1 rooms away.
  lemma NextDoorIsFar(x: nat)
    ensures Reported(Along(Delta(x, 0, 0), Delta(1, 0, 0), 1)) == x + 1
  {
  }

  class Mapper {
    const rootRoomId: int
    var crawledRooms: map<int, MapNode>
    // roomGrid
    var size: Delta
    var roomOffset: Delta
    var rooms: array3<MapNode?>   // indexed [z, y, x]

    constructor (rootRoomId: int)
      ensures this.rootRoomId == rootRoomId && crawledRooms == map[]
    {
      this.rootRoomId := rootRoomId;
      crawledRooms := map[];
      size, roomOffset := ORIGIN, ORIGIN;
      rooms := new MapNode?[0, 0, 0];
    }

    // The crawled rooms are exactly those in at, at the positions given there.
    ghost predicate Crawled(posDeltas: Directions, world: World, at: map<int, Delta>)
      reads this`crawledRooms, crawledRooms.Values
    {
      && crawledRooms.Keys == at.Keys && at.Keys <= world.rooms.Keys
      && (forall r :: r in at ==>
            && crawledRooms[r].roomId == r
            && crawledRooms[r].pos == at[r]
            && crawledRooms[r].exits == NodeExits(posDeltas, world.rooms[r]))
    }

    // The crawl of Start. Entries are taken from the front of the queue and added at its end.
    method Crawl(posDeltas: Directions, world: World)
      returns (lowestRoomId: int, box: Box, ghost t: Trace)
      requires crawledRooms == map[] && !Endless(posDeltas, world, rootRoomId)
      modifies this`crawledRooms
      ensures (forall r :: r in crawledRooms ==> fresh(crawledRooms[r])) && Crawled(posDeltas, world, t.at)
      ensures OnCourse(posDeltas, world, rootRoomId, t, []) && Boxed(posDeltas, world, rootRoomId, box, t.at, t.entries, [])
      ensures lowestRoomId == LowestOf(t.taken)
    {
      hide OnCourse, Reach, GraphOf, NodeExits, LowestOf, Boxed, Loops, Endless, Stuck, Zeros;
      box := Box(0, 0, 0, 0, 0, 0);
      lowestRoomId := 0;
      var crawlQueue := [CrawlRoom(rootRoomId, ORIGIN)];
      t := CourseBegin(posDeltas, world, rootRoomId);
      HoldsOrigin(posDeltas, world);
      assert t.at.Keys == {};
      while |crawlQueue| > 0
        invariant (forall r :: r in crawledRooms ==> fresh(crawledRooms[r])) && Crawled(posDeltas, world, t.at)
        invariant OnCourse(posDeltas, world, rootRoomId, t, crawlQueue) && Boxed(posDeltas, world, rootRoomId, box, t.at, t.entries, crawlQueue)
        invariant lowestRoomId == LowestOf(t.taken)
        decreases world.rooms.Keys - t.seen.Keys, Zeros(crawlQueue), |crawlQueue|
      {
        SeenAreRooms(posDeltas, world, rootRoomId, t, crawlQueue);
        StaysCalm(posDeltas, world, rootRoomId, t, crawlQueue);
        ghost var t0 := t;
        crawlQueue, lowestRoomId, box, t := Turn(posDeltas, world, crawlQueue, lowestRoomId, box, t);
        SeenAreRooms(posDeltas, world, rootRoomId, t, crawlQueue);
        assert t.seen == t0.seen ==> t.seen.Keys == t0.seen.Keys;
      }
      assert crawlQueue == [];
    }

    lemma HoldsOrigin(posDeltas: Directions, world: World)
      ensures Boxed(posDeltas, world, rootRoomId, Box(0, 0, 0, 0, 0, 0), map[], {CrawlRoom(rootRoomId, ORIGIN)}, [CrawlRoom(rootRoomId, ORIGIN)])
      ensures LowestOf([]) == 0
    {
      var c := CrawlRoom(rootRoomId, ORIGIN);
      assert c in {c} && c.pos.x == 0 && c.pos.y == 0 && c.pos.z == 0;
      assert PlacedBy(posDeltas, world, rootRoomId, world.Target(rootRoomId), ORIGIN, 0);
    }

    lemma StaysCalm(posDeltas: Directions, world: World, root: int, t: Trace, queue: seq<CrawlRoom>)
      requires OnCourse(posDeltas, world, root, t, queue) && !Endless(posDeltas, world, root)
      ensures Calm(posDeltas, world, t.seen)
    {
      hide Loops, Crawling, Tracked, Replaced, Reach;
      if world.StartRoom() in t.seen {
        SeenIsReached(posDeltas, world, root, t.seen, queue, t.d, world.StartRoom());
      }
    }

    // One turn of the loop of Start
    method Turn(posDeltas: Directions, world: World, crawlQueue0: seq<CrawlRoom>, lowest0: int, box0: Box, ghost t0: Trace)
      returns (crawlQueue: seq<CrawlRoom>, lowest: int, box: Box, ghost t: Trace)
      requires Crawled(posDeltas, world, t0.at) && OnCourse(posDeltas, world, rootRoomId, t0, crawlQueue0)
      requires Boxed(posDeltas, world, rootRoomId, box0, t0.at, t0.entries, crawlQueue0) && lowest0 == LowestOf(t0.taken) && |crawlQueue0| > 0
      modifies this`crawledRooms
      ensures Crawled(posDeltas, world, t.at) && OnCourse(posDeltas, world, rootRoomId, t, crawlQueue)
      ensures Boxed(posDeltas, world, rootRoomId, box, t.at, t.entries, crawlQueue) && lowest == LowestOf(t.taken)
      ensures forall r :: r in crawledRooms ==> fresh(crawledRooms[r]) || (r in old(crawledRooms) && crawledRooms[r] == old(crawledRooms)[r])
      ensures Calm(posDeltas, world, t0.seen) ==> Nearer(t0, crawlQueue0, t, crawlQueue)
      ensures Stuck(posDeltas, world, t0.seen, crawlQueue0) ==> Stuck(posDeltas, world, t.seen, crawlQueue)
    {
      hide Crawled, OnCourse, NodeExits, LowestOf, Boxed, Loops, QueueIds, Zeros, Visited;
      crawlQueue, lowest, box, t := crawlQueue0, lowest0, box0, t0;
      var roomNow := crawlQueue[0];
      LowestNext(t.taken, roomNow.roomId);
      if lowest == 0 || roomNow.roomId < lowest {
        lowest := roomNow.roomId;
      }
      NodesAreSeen(posDeltas, world, t, crawlQueue);
      SeenAreRooms(posDeltas, world, rootRoomId, t, crawlQueue);
      ZerosRest(crawlQueue);
      QueueIdsRest(crawlQueue);
      if roomNow.roomId in crawledRooms || !world.Loads(roomNow.roomId) {
        CourseSkip(posDeltas, world, rootRoomId, t, crawlQueue);
        BoxedSkip(posDeltas, world, rootRoomId, box, t.at, t.entries, crawlQueue);
        t := t.(taken := t.taken + [roomNow.roomId]);
        crawlQueue := crawlQueue[1..];
        return;
      }
      crawlQueue, box, t := CrawlOne(posDeltas, world, crawlQueue, box, t);
      LoopIs(posDeltas, world);
    }

    lemma LowestNext(taken: seq<int>, id: int)
      ensures LowestOf(taken + [id]) == if LowestOf(taken) == 0 || id < LowestOf(taken) then id else LowestOf(taken)
    {
      assert (taken + [id])[..|taken|] == taken;
    }

    lemma NodesAreSeen(posDeltas: Directions, world: World, t: Trace, queue: seq<CrawlRoom>)
      requires Crawled(posDeltas, world, t.at) && OnCourse(posDeltas, world, rootRoomId, t, queue)
      ensures crawledRooms.Keys == t.seen.Keys == t.at.Keys
    {
      hide Crawling, Tracked, ZerosBeside, Beside, NodeExits;
    }

    lemma LoopIs(posDeltas: Directions, world: World)
      ensures Loops(posDeltas, world) <==>
        world.StartRoom() in world.rooms &&
        var exits := NodeExits(posDeltas, world.rooms[world.StartRoom()]); START_ROOM_ID_ALIAS in TargetsOf(exits, exits.Keys)
    {
    }

    // The part of the loop for a room that is crawled: one not seen before, or the start room again.
    method CrawlOne(posDeltas: Directions, world: World, crawlQueue0: seq<CrawlRoom>, box0: Box, ghost t0: Trace)
      returns (crawlQueue: seq<CrawlRoom>, box: Box, ghost t: Trace)
      requires Crawled(posDeltas, world, t0.at) && OnCourse(posDeltas, world, rootRoomId, t0, crawlQueue0)
      requires Boxed(posDeltas, world, rootRoomId, box0, t0.at, t0.entries, crawlQueue0)
      requires |crawlQueue0| > 0 && crawlQueue0[0].roomId !in crawledRooms && world.Loads(crawlQueue0[0].roomId)
      modifies this`crawledRooms
      ensures Crawled(posDeltas, world, t.at) && OnCourse(posDeltas, world, rootRoomId, t, crawlQueue)
      ensures Boxed(posDeltas, world, rootRoomId, box, t.at, t.entries, crawlQueue)
      ensures t == Visited(world, t0, crawlQueue0[0].roomId, crawlQueue0[0].pos, t.d, t.entries)
      ensures t0.seen.Keys < t.seen.Keys || (t.seen == t0.seen && crawlQueue0[0].roomId == START_ROOM_ID_ALIAS)
      ensures t.taken == t0.taken + [crawlQueue0[0].roomId] && world.Target(crawlQueue0[0].roomId) in t.seen
      ensures t.seen.Keys == t0.seen.Keys + {world.Target(crawlQueue0[0].roomId)}
      ensures forall r :: r in crawledRooms ==> fresh(crawledRooms[r]) || (r in old(crawledRooms) && crawledRooms[r] == old(crawledRooms)[r])
      ensures var exits := NodeExits(posDeltas, world.rooms[world.Target(crawlQueue0[0].roomId)]);
              && t.seen.Keys + QueueIds(crawlQueue) == t.seen.Keys + QueueIds(crawlQueue0[1..]) + TargetsOf(exits, exits.Keys)
              && (START_ROOM_ID_ALIAS !in TargetsOf(exits, exits.Keys) ==> Zeros(crawlQueue) == Zeros(crawlQueue0[1..]))
    {
      hide Crawled, Crawling, CrawlingAt, OnCourse, NodeExits, QueueIds, TargetsOf, Boxed, Walked, Calm, ZerosBeside, Zeros;
      var roomNow := crawlQueue0[0];
      NodesAreSeen(posDeltas, world, t0, crawlQueue0);
      SeenAreRooms(posDeltas, world, rootRoomId, t0, crawlQueue0);
      ghost var cur, again := world.Target(roomNow.roomId), world.Target(roomNow.roomId) in t0.seen;
      CourseIsCrawl(posDeltas, world, rootRoomId, t0, crawlQueue0);
      if again {
        CrawlSkip(posDeltas, world, rootRoomId, t0.seen, crawlQueue0, t0.d);
      } else {
        CrawlVisit(posDeltas, world, rootRoomId, t0.seen, crawlQueue0, t0.d);
      }
      BoxedVisit(posDeltas, world, rootRoomId, box0, t0.at, t0.entries, crawlQueue0);
      t := Visited(world, t0, roomNow.roomId, roomNow.pos, t0.d, t0.entries);
      var exits := NodeExits(posDeltas, world.rooms[world.Target(roomNow.roomId)]);
      AddCrawled(posDeltas, world, t0.at, world.Target(roomNow.roomId), exits, roomNow.pos);
      ghost var d, entries;
      crawlQueue, box, d, entries := CrawlExits(posDeltas, world, roomNow, exits, crawlQueue0[1..], box0, t, cur, again);
      t := t.(d := d, entries := entries);
      CourseVisit(posDeltas, world, rootRoomId, t0, crawlQueue0, t, crawlQueue);
    }

    // A new node for a room, in place of the one it may have had
    method AddCrawled(ghost posDeltas: Directions, ghost world: World, ghost at: map<int, Delta>,
                      id: int, exits: map<string, NodeExit>, pos: Delta)
      requires Crawled(posDeltas, world, at) && id in world.rooms && exits == NodeExits(posDeltas, world.rooms[id])
      modifies this`crawledRooms
      ensures Crawled(posDeltas, world, at[id := pos]) && crawledRooms.Keys == old(crawledRooms).Keys + {id}
      ensures forall r :: r in crawledRooms ==> fresh(crawledRooms[r]) || (r in old(crawledRooms) && crawledRooms[r] == old(crawledRooms)[r])
    {
      hide NodeExits;
      var node := new MapNode(id, exits, pos);
      crawledRooms := crawledRooms[node.roomId := node];
    }

    lemma CourseIsCrawl(posDeltas: Directions, world: World, root: int, t: Trace, queue: seq<CrawlRoom>)
      requires OnCourse(posDeltas, world, root, t, queue)
      ensures Crawling(posDeltas, world, root, t.seen, queue, t.d)
    {
    }

    // The loop over the exits of the room just crawled.
    method CrawlExits(posDeltas: Directions, world: World, roomNow: CrawlRoom, exits: map<string, NodeExit>,
                      crawlQueue0: seq<CrawlRoom>, box0: Box, ghost t: Trace, ghost cur: int, ghost again: bool)
      returns (crawlQueue: seq<CrawlRoom>, box: Box, ghost d: map<int, nat>, ghost entries: set<CrawlRoom>)
      requires cur == world.Target(roomNow.roomId) && Walked(posDeltas, world, rootRoomId, roomNow)
      requires crawledRooms.Keys == t.seen.Keys <= world.rooms.Keys && cur in t.seen && exits == NodeExits(posDeltas, world.rooms[cur])
      requires again ==> cur == world.StartRoom() && Crawling(posDeltas, world, rootRoomId, t.seen, crawlQueue0, t.d)
      requires !again ==> t.seen[cur] == roomNow.pos && CrawlingAt(posDeltas, world, rootRoomId, t.seen, crawlQueue0, t.d, cur, exits.Keys)
      requires Boxed(posDeltas, world, rootRoomId, box0, t.at, t.entries, crawlQueue0)
      ensures Crawling(posDeltas, world, rootRoomId, t.seen, crawlQueue, d) && Boxed(posDeltas, world, rootRoomId, box, t.at, entries, crawlQueue)
      ensures t.seen.Keys + QueueIds(crawlQueue) == t.seen.Keys + QueueIds(crawlQueue0) + TargetsOf(exits, exits.Keys)
      ensures QueueIds(crawlQueue) <= QueueIds(crawlQueue0) + TargetsOf(exits, exits.Keys)
      ensures Calm(posDeltas, world, t.seen) && ZerosBeside(posDeltas, world, t.seen, crawlQueue0) ==>
                ZerosBeside(posDeltas, world, t.seen, crawlQueue)
      ensures START_ROOM_ID_ALIAS !in TargetsOf(exits, exits.Keys) ==> Zeros(crawlQueue) == Zeros(crawlQueue0)
    {
      hide Crawling, CrawlingAt, NodeExits, QueueIds, TargetsOf, Boxed, Walked, Calm, ZerosBeside, Zeros;
      crawlQueue, box, d, entries := crawlQueue0, box0, t.d, t.entries;
      var todo := exits.Keys;
      ghost var done: set<string> := {};
      NoTargets(exits);
      while todo != {}
        invariant todo + done == exits.Keys
        invariant if again then Crawling(posDeltas, world, rootRoomId, t.seen, crawlQueue, d)
                  else CrawlingAt(posDeltas, world, rootRoomId, t.seen, crawlQueue, d, cur, todo)
        invariant Boxed(posDeltas, world, rootRoomId, box, t.at, entries, crawlQueue)
        invariant t.seen.Keys + QueueIds(crawlQueue) == t.seen.Keys + QueueIds(crawlQueue0) + TargetsOf(exits, done)
        invariant QueueIds(crawlQueue) <= QueueIds(crawlQueue0) + TargetsOf(exits, done)
        invariant Calm(posDeltas, world, t.seen) && ZerosBeside(posDeltas, world, t.seen, crawlQueue0) ==>
                    ZerosBeside(posDeltas, world, t.seen, crawlQueue)
        invariant START_ROOM_ID_ALIAS !in TargetsOf(exits, done) ==> Zeros(crawlQueue) == Zeros(crawlQueue0)
        decreases todo
      {
        var exitName :| exitName in todo;
        var exitInfo := exits[exitName];
        if again {
          CrawlKnown(posDeltas, world, rootRoomId, t.seen, crawlQueue, d, cur, exitName, roomNow.pos);
        } else {
          d := CrawlExit(posDeltas, world, rootRoomId, t.seen, crawlQueue, d, cur, todo, exitName);
        }
        if Calm(posDeltas, world, t.seen) && ZerosBeside(posDeltas, world, t.seen, crawlQueue0) {
          ZerosFollow(posDeltas, world, t.seen, crawlQueue, roomNow.pos, cur, exitName);
        }
        TargetsNext(exits, done, exitName);
        todo, done := todo - {exitName}, done + {exitName};
        if exitInfo.roomId in crawledRooms {
          continue;
        }
        var newCrawl := CrawlRoom(exitInfo.roomId, roomNow.pos.Combine(exitInfo.direction));
        WalkedOn(posDeltas, world, rootRoomId, roomNow, exitName);
        BoxedWider(posDeltas, world, rootRoomId, box, t.at, entries, crawlQueue, newCrawl);
        box := box.Widen(newCrawl.pos);
        entries := entries + {newCrawl};
        QueueIdsAppend(crawlQueue, newCrawl);
        ZerosAppend(crawlQueue, newCrawl);
        crawlQueue := crawlQueue + [newCrawl];
      }
      assert done == exits.Keys;
      if !again {
        CrawlReady(posDeltas, world, rootRoomId, t.seen, crawlQueue, d, cur);
      }
    }

    // If the start room is reached and leads to room 0, the crawl does not end: however many turns its loop
    // takes, there is another.
    method KeepsCrawling(posDeltas: Directions, world: World, turns: nat) returns (crawlQueue: seq<CrawlRoom>)
      requires crawledRooms == map[] && Endless(posDeltas, world, rootRoomId)
      modifies this`crawledRooms
      ensures |crawlQueue| > 0
    {
      hide OnCourse, Reach, GraphOf, NodeExits, LowestOf, Boxed, Loops, Crawled;
      var box, lowest := Box(0, 0, 0, 0, 0, 0), 0;
      crawlQueue := [CrawlRoom(rootRoomId, ORIGIN)];
      ghost var t := CourseBegin(posDeltas, world, rootRoomId);
      HoldsOrigin(posDeltas, world);
      NothingCrawled(posDeltas, world);
      for i := 0 to turns
        invariant Crawled(posDeltas, world, t.at) && OnCourse(posDeltas, world, rootRoomId, t, crawlQueue)
        invariant Boxed(posDeltas, world, rootRoomId, box, t.at, t.entries, crawlQueue) && lowest == LowestOf(t.taken)
        invariant Stuck(posDeltas, world, t.seen, crawlQueue) && |crawlQueue| > 0
      {
        crawlQueue, lowest, box, t := Turn(posDeltas, world, crawlQueue, lowest, box, t);
        if |crawlQueue| == 0 {
          assert crawlQueue == [];
          CourseIsCrawl(posDeltas, world, rootRoomId, t, []);
          CrawlComplete(posDeltas, world, rootRoomId, t.seen, t.d);
        }
      }
    }

    lemma NothingCrawled(posDeltas: Directions, world: World)
      requires crawledRooms == map[]
      ensures Crawled(posDeltas, world, map[])
    {
    }

    method Initialize(b: Box)
      requires b.minX <= b.maxX && b.minY <= b.maxY && b.minZ <= b.maxZ
      modifies this`size, this`roomOffset, this`rooms
      ensures size == Delta(b.maxX - b.minX + 1, b.maxY - b.minY + 1, b.maxZ - b.minZ + 1)
      ensures roomOffset == Delta(-b.minX, -b.minY, -b.minZ)
      ensures fresh(rooms) && rooms.Length0 == size.z && rooms.Length1 == size.y && rooms.Length2 == size.x
      ensures Gridded({})
    {
      size := Delta(b.maxX - b.minX + 1, b.maxY - b.minY + 1, b.maxZ - b.minZ + 1);
      roomOffset := Delta(-b.minX, -b.minY, -b.minZ);
      rooms := new MapNode?[size.z, size.y, size.x]((_, _, _) => null);
    }

    predicate InGrid(x: int, y: int, z: int)
      reads this`roomOffset, this`rooms
    {
      && 0 <= z + roomOffset.z < rooms.Length0
      && 0 <= y + roomOffset.y < rooms.Length1
      && 0 <= x + roomOffset.x < rooms.Length2
    }

    function Cell(x: int, y: int, z: int): MapNode?
      requires InGrid(x, y, z)
      reads this`roomOffset, this`rooms, rooms
    {
      rooms[z + roomOffset.z, y + roomOffset.y, x + roomOffset.x]
    }

    // Every node lies in the grid, its cell is taken, and every taken cell holds a node with exactly
    // those coordinates. done names the nodes added so far.
    ghost predicate Gridded(done: set<int>)
      requires done <= crawledRooms.Keys
      reads this`crawledRooms, this`roomOffset, this`rooms, rooms, crawledRooms.Values
    {
      && (forall r :: r in done ==>
            var p := crawledRooms[r].pos;
            InGrid(p.x, p.y, p.z) && Cell(p.x, p.y, p.z) != null)
      && (forall x, y, z :: InGrid(x, y, z) && Cell(x, y, z) != null ==>
            var n: MapNode := Cell(x, y, z);
            n.roomId in done && crawledRooms[n.roomId] == n && n.pos == Delta(x, y, z))
    }

    method AddNode(n: MapNode)
      requires InGrid(n.pos.x, n.pos.y, n.pos.z)
      modifies rooms
      ensures Cell(n.pos.x, n.pos.y, n.pos.z) == n
      ensures forall x, y, z :: InGrid(x, y, z) && Delta(x, y, z) != n.pos ==> Cell(x, y, z) == old(Cell(x, y, z))
    {
      rooms[n.pos.z + roomOffset.z, n.pos.y + roomOffset.y, n.pos.x + roomOffset.x] := n;
    }

    // Gridded, for nodes at the positions given by at
    ghost predicate GriddedAt(done: set<int>, at: map<int, Delta>)
      reads this`crawledRooms, this`roomOffset, this`rooms, rooms
    {
      && done <= crawledRooms.Keys && done <= at.Keys
      && (forall r :: r in done ==> InGrid(at[r].x, at[r].y, at[r].z) && Cell(at[r].x, at[r].y, at[r].z) != null)
      && (forall x, y, z :: InGrid(x, y, z) && Cell(x, y, z) != null ==>
            var n: MapNode := Cell(x, y, z);
            n.roomId in done && crawledRooms[n.roomId] == n && at[n.roomId] == Delta(x, y, z))
    }

    // A node is put in its cell.
    method Place(node: MapNode, ghost at: map<int, Delta>, ghost done: set<int>)
      requires node.roomId in crawledRooms && crawledRooms[node.roomId] == node
      requires node.roomId in at && at[node.roomId] == node.pos && InGrid(node.pos.x, node.pos.y, node.pos.z)
      requires GriddedAt(done, at)
      modifies rooms
      ensures GriddedAt(done + {node.roomId}, at)
    {
      AddNode(node);
    }

    lemma GriddedMoved(done: set<int>, at: map<int, Delta>, id: int, pos: Delta)
      requires GriddedAt(done, at) && id !in done
      ensures GriddedAt(done, at[id := pos])
    {
    }

    // Shift one crawled node and put it in the grid.
    method Settle(node: MapNode, offset: Delta, ghost posDeltas: Directions, ghost world: World,
                  ghost at: map<int, Delta>, ghost done: set<int>)
      requires Crawled(posDeltas, world, at)
      requires node.roomId in crawledRooms && crawledRooms[node.roomId] == node
      requires node.roomId !in done && GriddedAt(done, at)
      requires var p := Minus(node.pos, offset); InGrid(p.x, p.y, p.z)
      modifies node`pos, rooms
      ensures GriddedAt(done + {node.roomId}, at[node.roomId := Minus(old(node.pos), offset)])
      ensures Crawled(posDeltas, world, at[node.roomId := Minus(old(node.pos), offset)])
    {
      hide NodeExits, GriddedAt, InGrid;
      GriddedMoved(done, at, node.roomId, Minus(node.pos, offset));
      node.pos := Minus(node.pos, offset);
      Place(node, at[node.roomId := node.pos], done);
    }

    // The last loop of Start, over the crawled rooms in any order.
    method SettleAll(offset: Delta, ghost posDeltas: Directions, ghost world: World, ghost seen: map<int, Delta>)
      requires Crawled(posDeltas, world, seen) && Gridded({})
      requires forall r :: r in seen ==> var p := Minus(seen[r], offset); InGrid(p.x, p.y, p.z)
      modifies rooms, crawledRooms.Values`pos
      ensures Crawled(posDeltas, world, map r | r in seen :: Minus(seen[r], offset))
      ensures Gridded(crawledRooms.Keys)
    {
      hide Gridded, GriddedAt, NodeExits, Minus, Crawled, InGrid;
      var todo := crawledRooms.Keys;
      ghost var done: set<int>, at := {}, seen;
      SameRooms(posDeltas, world, at);
      NothingPlaced(at);
      while todo != {}
        invariant todo !! done && todo + done == crawledRooms.Keys == at.Keys == seen.Keys
        invariant forall r :: r in seen ==> at[r] == if r in done then Minus(seen[r], offset) else seen[r]
        invariant Crawled(posDeltas, world, at) && GriddedAt(done, at)
        decreases todo
      {
        var id :| id in todo;
        SameRooms(posDeltas, world, at);
        Settle(crawledRooms[id], offset, posDeltas, world, at, done);
        todo, done, at := todo - {id}, done + {id}, at[id := Minus(seen[id], offset)];
      }
      assert done == crawledRooms.Keys;
      MovedAll(seen, at, offset);
      AllPlaced(posDeltas, world, at);
    }

    lemma NothingPlaced(at: map<int, Delta>)
      requires Gridded({})
      ensures GriddedAt({}, at)
    {
    }

    lemma AllPlaced(posDeltas: Directions, world: World, at: map<int, Delta>)
      requires Crawled(posDeltas, world, at) && GriddedAt(crawledRooms.Keys, at)
      ensures Gridded(crawledRooms.Keys)
    {
      hide NodeExits, InGrid;
    }

    lemma MovedAll(seen: map<int, Delta>, at: map<int, Delta>, offset: Delta)
      requires at.Keys == seen.Keys && forall r :: r in seen ==> at[r] == Minus(seen[r], offset)
      ensures at == map r | r in seen :: Minus(seen[r], offset)
    {
      hide Minus;
      var all := map r | r in seen :: Minus(seen[r], offset);
      assert all.Keys == seen.Keys == at.Keys;
      assert forall r :: r in at ==> at[r] == all[r];
    }

    lemma SameRooms(posDeltas: Directions, world: World, at: map<int, Delta>)
      requires Crawled(posDeltas, world, at)
      ensures crawledRooms.Keys == at.Keys && at.Keys <= world.rooms.Keys
      ensures forall r :: r in at ==>
        && crawledRooms[r].roomId == r && crawledRooms[r].pos == at[r] && crawledRooms[r].exits == NodeExits(posDeltas, world.rooms[r])
    {
    }

    // The final grid: a crawled room at every taken cell, at the coordinates of the cell.
    ghost predicate Mapped()
      reads this`crawledRooms, this`roomOffset, this`rooms, rooms, crawledRooms.Values
    {
      (forall r :: r in crawledRooms ==> crawledRooms[r].roomId == r) && Gridded(crawledRooms.Keys)
    }

    // What a crawl leaves behind when taken are the ids it took off its queue: offset is what was taken off
    // the positions.
    ghost predicate Charted(posDeltas: Directions, world: World, offset: Delta, taken: seq<int>)
      reads this`crawledRooms, crawledRooms.Values
    {
      && (forall r :: r in crawledRooms <==> Reach(GraphOf(posDeltas, world), world.Target(rootRoomId), r))
      && (forall r :: r in crawledRooms ==> r in world.rooms && crawledRooms[r].exits == NodeExits(posDeltas, world.rooms[r]))
      && (forall r :: r in crawledRooms && (r != world.StartRoom() || !Again(taken)) ==>
            Placed(posDeltas, world, rootRoomId, r, crawledRooms[r].pos.Combine(offset)))
      && (world.StartRoom() in crawledRooms && Again(taken) ==> AtRoomZero(world))
      && Tracked(posDeltas, world, rootRoomId, crawledRooms.Keys, [], taken)
      && (if LowestOf(taken) in crawledRooms then crawledRooms[LowestOf(taken)].pos == ORIGIN else offset == ORIGIN)
    }

    // The start room is where an exit to room 0 leads from some other room.
    ghost predicate AtRoomZero(world: World)
      requires world.StartRoom() in crawledRooms
      reads this`crawledRooms, crawledRooms.Values
    {
      exists p, e :: p in crawledRooms && p != world.StartRoom() && LeadsToZero(p, e, crawledRooms[world.StartRoom()].pos)
    }

    ghost predicate LeadsToZero(p: int, e: string, pos: Delta)
      requires p in crawledRooms
      reads this`crawledRooms, crawledRooms.Values
    {
      && e in crawledRooms[p].exits && crawledRooms[p].exits[e].roomId == START_ROOM_ID_ALIAS
      && pos == crawledRooms[p].pos.Combine(crawledRooms[p].exits[e].direction)
    }

    // Unless it is endless the crawl ends. LowestIsLeast says when the id made the origin is the least one met.
    method Start(posDeltas: Directions, world: World)
      returns (ghost offset: Delta, ghost taken: seq<int>, ghost box: Box, ghost entries: set<CrawlRoom>)
      requires crawledRooms == map[] ==> !Endless(posDeltas, world, rootRoomId)
      modifies this
      ensures old(crawledRooms) != map[] ==>
        crawledRooms == old(crawledRooms) && rooms == old(rooms) && roomOffset == old(roomOffset) && size == old(size)
      ensures old(crawledRooms) == map[] ==> Mapped() && Charted(posDeltas, world, offset, taken)
      ensures old(crawledRooms) == map[] ==>
        forall r :: r in crawledRooms ==> r in world.rooms && Directed(posDeltas, world.rooms[r], crawledRooms[r].exits)
      ensures old(crawledRooms) == map[] ==>
        && Sized(box, offset) && BoxOf(box, entries) && (forall c :: c in entries ==> Walked(posDeltas, world, rootRoomId, c))
        && (forall r :: r in crawledRooms ==> EntryAt(world, entries, r, crawledRooms[r].pos.Combine(offset)))
    {
      hide OnCourse, Placed, Reach, GraphOf, NodeExits, Gridded, Crawled, LowestOf, Endless, Charted, Boxed, Minus, BoxOf, Walked, EntryAt, Directed, Sized;
      offset, taken, box, entries := ORIGIN, [], Box(0, 0, 0, 0, 0, 0), {};
      if |crawledRooms| > 0 {
        return;
      }
      var lowestRoomId, bounds, t := Crawl(posDeltas, world);
      taken, box, entries := t.taken, bounds, t.entries;
      SameRooms(posDeltas, world, t.at);
      offset := LayOut(posDeltas, world, lowestRoomId, bounds, t.at, t.entries);
      SettledAll(posDeltas, world, t, offset);
      ShownToCaller(posDeltas, world, bounds, t, offset);
    }

    lemma ShownToCaller(posDeltas: Directions, world: World, box: Box, t: Trace, offset: Delta)
      requires Crawled(posDeltas, world, map r | r in t.at :: Minus(t.at[r], offset))
      requires Boxed(posDeltas, world, rootRoomId, box, t.at, t.entries, [])
      ensures BoxOf(box, t.entries) && forall c :: c in t.entries ==> Walked(posDeltas, world, rootRoomId, c)
      ensures forall r :: r in crawledRooms ==> EntryAt(world, t.entries, r, crawledRooms[r].pos.Combine(offset))
      ensures forall r :: r in crawledRooms ==> r in world.rooms && Directed(posDeltas, world.rooms[r], crawledRooms[r].exits)
    {
      hide Crawled, Walked, BoxOf, EntryAt, NodeExits, Directed;
      Shifted(posDeltas, world, t.at, offset);
      forall r | r in crawledRooms
        ensures Directed(posDeltas, world.rooms[r], crawledRooms[r].exits)
      {
        NodeExitsDirected(posDeltas, world.rooms[r]);
      }
    }

    // The grid has the extent of the box with the offset taken off.
    ghost predicate Sized(box: Box, offset: Delta)
      reads this`size, this`roomOffset, this`rooms
    {
      && size == Delta(box.maxX - box.minX + 1, box.maxY - box.minY + 1, box.maxZ - box.minZ + 1)
      && roomOffset == Delta(offset.x - box.minX, offset.y - box.minY, offset.z - box.minZ)
      && rooms.Length0 == size.z && rooms.Length1 == size.y && rooms.Length2 == size.x
    }

    // The end of Start: the nodes are shifted and put in a grid of the right size.
    method LayOut(ghost posDeltas: Directions, ghost world: World, lowestRoomId: int, box: Box,
                  ghost at: map<int, Delta>, ghost entries: set<CrawlRoom>)
      returns (offset: Delta)
      requires Crawled(posDeltas, world, at) && Boxed(posDeltas, world, rootRoomId, box, at, entries, [])
      modifies this`size, this`roomOffset, this`rooms, crawledRooms.Values`pos
      ensures offset == if lowestRoomId in at then at[lowestRoomId] else ORIGIN
      ensures Crawled(posDeltas, world, map r | r in at :: Minus(at[r], offset)) && Gridded(crawledRooms.Keys)
      ensures Sized(box, offset)
    {
      hide NodeExits, Gridded, Crawled, Boxed, Box.Holds, Minus;
      SameRooms(posDeltas, world, at);
      HoldsNodes(posDeltas, world, rootRoomId, box, at, entries);
      offset := ORIGIN;
      if lowestRoomId in crawledRooms {
        offset := crawledRooms[lowestRoomId].pos;
      }
      Initialize(Box(box.minX - offset.x, box.maxX - offset.x, box.minY - offset.y, box.maxY - offset.y, box.minZ - offset.z, box.maxZ - offset.z));
      forall r | r in at
        ensures var p := Minus(at[r], offset); InGrid(p.x, p.y, p.z)
      {
        InShifted(box, at[r], offset);
      }
      SettleAll(offset, posDeltas, world, at);
    }

    lemma SettledAll(posDeltas: Directions, world: World, t: Trace, offset: Delta)
      requires Crawled(posDeltas, world, map r | r in t.at :: Minus(t.at[r], offset))
      requires OnCourse(posDeltas, world, rootRoomId, t, []) && !Endless(posDeltas, world, rootRoomId)
      requires offset == if LowestOf(t.taken) in t.at then t.at[LowestOf(t.taken)] else ORIGIN
      ensures Charted(posDeltas, world, offset, t.taken)
      ensures forall r :: r in crawledRooms ==> crawledRooms[r].roomId == r
    {
      hide Placed, Crawling, Tracked, Reach, NodeExits, GraphOf, Loops, Endless, ZerosBeside, LowestOf, AtRoomZero, Crawled, Calm, Beside;
      CrawlComplete(posDeltas, world, rootRoomId, t.seen, t.d);
      StaysCalm(posDeltas, world, rootRoomId, t, []);
      Shifted(posDeltas, world, t.at, offset);
      if world.StartRoom() in crawledRooms && Again(t.taken) {
        BesideIsAtZero(posDeltas, world, t, offset);
      }
    }

    // Where the nodes are once the offset is taken off
    lemma Shifted(posDeltas: Directions, world: World, at: map<int, Delta>, offset: Delta)
      requires Crawled(posDeltas, world, map r | r in at :: Minus(at[r], offset))
      ensures crawledRooms.Keys == at.Keys <= world.rooms.Keys
      ensures forall r :: r in at ==>
        && crawledRooms[r].roomId == r && crawledRooms[r].exits == NodeExits(posDeltas, world.rooms[r])
        && crawledRooms[r].pos.Combine(offset) == at[r] && crawledRooms[r].pos == Minus(at[r], offset)
    {
      hide NodeExits;
      assert (map r | r in at :: Minus(at[r], offset)).Keys == at.Keys;
    }

    lemma BesideIsAtZero(posDeltas: Directions, world: World, t: Trace, offset: Delta)
      requires Crawled(posDeltas, world, map r | r in t.at :: Minus(t.at[r], offset)) && t.at.Keys == t.seen.Keys
      requires forall r :: r in t.seen && r != world.StartRoom() ==> t.at[r] == t.seen[r]
      requires world.StartRoom() in crawledRooms && world.StartRoom() in t.at && Beside(posDeltas, world, t.seen, t.at[world.StartRoom()])
      ensures AtRoomZero(world)
    {
      hide NodeExits, Crawled;
      Shifted(posDeltas, world, t.at, offset);
      var p, e :|
        && p in t.seen && p in world.rooms && p != world.StartRoom() && e in NodeExits(posDeltas, world.rooms[p])
        && NodeExits(posDeltas, world.rooms[p])[e].roomId == START_ROOM_ID_ALIAS
        && t.at[world.StartRoom()] == t.seen[p].Combine(NodeExits(posDeltas, world.rooms[p])[e].direction);
      assert LeadsToZero(p, e, crawledRooms[world.StartRoom()].pos);
    }

    method GetCoordinates(roomId: int) returns (r: Lookup, x: int, y: int, z: int)
      ensures roomId in crawledRooms ==> r == Found(roomId) && Delta(x, y, z) == crawledRooms[roomId].pos
      ensures roomId !in crawledRooms ==> r == RoomNotFound && x == 0 && y == 0 && z == 0
    {
      if roomId !in crawledRooms {
        return RoomNotFound, 0, 0, 0;
      }
      var p := crawledRooms[roomId].pos;
      return Found(roomId), p.x, p.y, p.z;
    }

    // GetRoomId and GetCoordinates agree: a room is found where it is, nothing is found anywhere else.
    method GetRoomId(x0: int, y0: int, z0: int) returns (r: Lookup)
      requires Mapped()
      ensures r.OutOfBounds? <==> !InGrid(x0, y0, z0)
      ensures r.Found? ==> r.roomId in crawledRooms && crawledRooms[r.roomId].pos == Delta(x0, y0, z0)
      ensures r.Found? <==> exists id :: id in crawledRooms && crawledRooms[id].pos == Delta(x0, y0, z0)
    {
      var z := z0 + roomOffset.z;
      if z < 0 || z >= rooms.Length0 {
        return OutOfBounds;
      }
      var y := y0 + roomOffset.y;
      if y < 0 || y >= rooms.Length1 {
        return OutOfBounds;
      }
      var x := x0 + roomOffset.x;
      if x < 0 || x >= rooms.Length2 {
        return OutOfBounds;
      }
      var checkNode := rooms[z, y, x];
      assert checkNode == Cell(x0, y0, z0);
      if checkNode != null {
        return Found(checkNode.roomId);
      }
      return RoomNotFound;
    }

    // Some room is exactly at p.
    ghost predicate Taken(p: Delta)
      reads this`crawledRooms, crawledRooms.Values
    {
      exists id :: id in crawledRooms && crawledRooms[id].pos == p
    }

    // How many more steps in direction d stay within the grid, at most.
    ghost function StepsLeft(p: Delta, d: Delta): nat
      reads this`roomOffset, this`rooms
    {
      if d.x > 0 then Abs(rooms.Length2 - p.x - roomOffset.x)
      else if d.x < 0 then Abs(p.x + roomOffset.x + 1)
      else if d.y > 0 then Abs(rooms.Length1 - p.y - roomOffset.y)
      else if d.y < 0 then Abs(p.y + roomOffset.y + 1)
      else if d.z > 0 then Abs(rooms.Length0 - p.z - roomOffset.z)
      else Abs(p.z + roomOffset.z + 1)
    }

    // The scan of FindAdjacentRoom from a crawled room in a known direction, with or without a limit.
    // It stops at the first room met, or at the first step out of the grid or past the limit.
    // The distance it reports is read off the coordinates of that room, not off the steps taken.
    method ScanFrom(startId: int, d: Delta, limit: Option<int>) returns (roomId: int, distance: int, steps: nat)
      requires Mapped() && startId in crawledRooms && d != ORIGIN
      ensures steps >= 1
      ensures forall k :: 1 <= k < steps ==> !Taken(Along(crawledRooms[startId].pos, d, k))
      ensures (limit.None? || steps <= limit.value) && Taken(Along(crawledRooms[startId].pos, d, steps)) ==>
        && roomId in crawledRooms && crawledRooms[roomId].pos == Along(crawledRooms[startId].pos, d, steps)
        && distance == Reported(crawledRooms[roomId].pos)
      ensures (limit.Some? && steps > limit.value) || !Taken(Along(crawledRooms[startId].pos, d, steps)) ==> roomId == 0 && distance == 0
      ensures (limit.Some? && steps > limit.value) || Taken(Along(crawledRooms[startId].pos, d, steps)) ||
        (var p := Along(crawledRooms[startId].pos, d, steps); !InGrid(p.x, p.y, p.z))
      ensures limit.Some? && steps > limit.value ==> steps == 1 || limit.None? || steps - 1 <= limit.value
    {
      hide Gridded, Along, Taken;
      var p := crawledRooms[startId].pos;
      AlongSteps(p, d, 0);
      steps := 0;
      while true
        invariant p == Along(crawledRooms[startId].pos, d, steps)
        invariant steps > 0 ==> InGrid(p.x, p.y, p.z) && (limit.None? || steps <= limit.value)
        invariant forall k :: 1 <= k <= steps ==> !Taken(Along(crawledRooms[startId].pos, d, k))
        decreases if steps == 0 then 1 else 0, StepsLeft(p, d)
      {
        AlongSteps(crawledRooms[startId].pos, d, steps);
        p := p.Combine(d);
        steps := steps + 1;
        if limit.Some? && steps > limit.value {
          return 0, 0, steps;
        }
        var r := GetRoomId(p.x, p.y, p.z);
        TakenIs(p);
        if r.OutOfBounds? {
          NothingOutside(p);
          return 0, 0, steps;
        }
        if r.RoomNotFound? {
          continue;
        }
        distance := 0;
        if p.x != 0 {
          distance := Abs(p.x);
        } else if p.y != 0 {
          distance := Abs(p.y);
        } else if p.z != 0 {
          distance := Abs(p.z);
        }
        return r.roomId, distance, steps;
      }
    }

    lemma TakenIs(p: Delta)
      ensures Taken(p) <==> exists id :: id in crawledRooms && crawledRooms[id].pos == p
    {
    }

    lemma NothingOutside(p: Delta)
      requires Mapped() && !InGrid(p.x, p.y, p.z)
      ensures !Taken(p)
    {
    }
  }

  // ---------- an exit drawn wider than its name ----------

  const NORTH: Directions := map["north" := Delta(0, -1, 0), "north-x2" := Delta(0, -2, 0)]

  // Room 811 leads north to room 810, two cells away on the map.
  function TwoNorth(): World {
    World(map[811 := map["north" := ExitData(810, "north-x2")], 810 := map[]], 1)
  }

  method DrawnTwoNorth() returns (m: Mapper)
    ensures 811 in m.crawledRooms && 810 in m.crawledRooms
    ensures m.crawledRooms[810].pos == m.crawledRooms[811].pos.Combine(Delta(0, -2, 0))
  {
    hide Endless, Reach, NodeExits, GraphOf, LowestOf, Mapper.Charted, Mapper.Mapped, BoxOf, Walked;
    NorthIsReached();
    m := new Mapper(811);
    ghost var offset, taken, _, _ := m.Start(NORTH, TwoNorth());
    TwoCellsApart(m, offset, taken);
  }

  lemma NorthIsReached()
    ensures !Endless(NORTH, TwoNorth(), 811)
    ensures Reach(GraphOf(NORTH, TwoNorth()), 811, 811) && Reach(GraphOf(NORTH, TwoNorth()), 811, 810)
    ensures ReachIn(GraphOf(NORTH, TwoNorth()), 811, 810, 1)
    ensures NodeExits(NORTH, TwoNorth().rooms[811]) == map["north" := NodeExit(810, Delta(0, -2, 0))]
    ensures NodeExits(NORTH, TwoNorth().rooms[810]) == map[]
  {
    hide Reach;
    var g := GraphOf(NORTH, TwoNorth());
    assert "north-x2" in NORTH && NORTH["north-x2"] == Delta(0, -2, 0);
    IsNeighbour(NORTH, TwoNorth(), 811, "north");
    ReachRefl(g, 811);
    ReachStep(g, 811, 810);
    assert ReachIn(g, 811, 811, 0);
    assert ReachIn(g, 811, 810, 1);
  }

  lemma TwoCellsApart(m: Mapper, offset: Delta, taken: seq<int>)
    requires m.rootRoomId == 811 && m.Charted(NORTH, TwoNorth(), offset, taken)
    ensures 811 in m.crawledRooms && 810 in m.crawledRooms
    ensures m.crawledRooms[810].pos == m.crawledRooms[811].pos.Combine(Delta(0, -2, 0))
  {
    hide Reach, NodeExits, GraphOf, LowestOf, Tracked, Placed;
    NorthIsReached();
    OnlyPlaces(m.crawledRooms[811].pos.Combine(offset), m.crawledRooms[810].pos.Combine(offset));
  }

  lemma OnlyPlaces(here: Delta, there: Delta)
    requires Placed(NORTH, TwoNorth(), 811, 811, here) && Placed(NORTH, TwoNorth(), 811, 810, there)
    ensures here == ORIGIN && there == Delta(0, -2, 0)
  {
    hide NodeExits, GraphOf, PlacedBy, IsDist, ReachIn;
    NorthIsReached();
    var g := GraphOf(NORTH, TwoNorth());
    var k: nat :| IsDist(g, 811, 811, k) && PlacedBy(NORTH, TwoNorth(), 811, 811, here, k);
    NoFurther(g, 811, 811, k, 0);
    AtTheRoot(here);
    var n: nat :| IsDist(g, 811, 810, n) && PlacedBy(NORTH, TwoNorth(), 811, 810, there, n);
    NoFurther(g, 811, 810, n, 1);
    OneStepOn(there);
  }

  lemma NoFurther(g: Graph<int>, a: int, b: int, n: nat, k: nat)
    requires IsDist(g, a, b, n) && (ReachIn(g, a, b, k) || (k == 0 && a == b))
    ensures n <= k && (n == 0 ==> a == b)
  {
    assert a in g by {
      StartsInGraph(g, a, b, n);
    }
    assert k == 0 && a == b ==> ReachIn(g, a, b, 0);
  }

  lemma AtTheRoot(here: Delta)
    requires PlacedBy(NORTH, TwoNorth(), 811, 811, here, 0)
    ensures here == ORIGIN
  {
  }

  lemma OneStepOn(there: Delta)
    requires PlacedBy(NORTH, TwoNorth(), 811, 810, there, 1)
    ensures there == Delta(0, -2, 0)
  {
    hide NodeExits;
    NorthIsReached();
    var p: int, q: Delta, e: string :| StepTo(NORTH, TwoNorth(), p, q, e, 810, there) && PlacedBy(NORTH, TwoNorth(), 811, p, q, 0);
  }

  // ---------- where room 0 is met ----------

  const EAST: Directions := map["east" := Delta(1, 0, 0)]

  function EastTo(id: int): map<string, ExitData> {
    map["east" := ExitData(id, "")]
  }

  lemma EastNodes(id: int)
    ensures NodeExits(EAST, EastTo(id)) == map["east" := NodeExit(id, Delta(1, 0, 0))]
    ensures NodeExits(EAST, map[]) == map[]
  {
    assert "east" in EAST && EAST["east"] == Delta(1, 0, 0);
  }

  // From the start room, crawled as room 0, an exit leads to room 7.
  function ZeroThenSeven(): World {
    World(map[1 := EastTo(7), 7 := map[]], 1)
  }

  // Of the ids 0 and 7 that are met, 7 becomes the origin.
  method OriginIsNotLeast() returns (m: Mapper, ghost taken: seq<int>)
    ensures 0 in taken && 7 in m.crawledRooms && m.crawledRooms[7].pos == ORIGIN
  {
    hide Endless, Reach, NodeExits, GraphOf, LowestOf, Mapper.Charted, Mapper.Mapped;
    SevenIsReached();
    m := new Mapper(0);
    ghost var offset, ids, _, _ := m.Start(EAST, ZeroThenSeven());
    taken := ids;
    SevenIsOrigin(m, offset, taken);
  }

  lemma SevenIsOrigin(m: Mapper, offset: Delta, taken: seq<int>)
    requires m.rootRoomId == 0 && m.Charted(EAST, ZeroThenSeven(), offset, taken)
    ensures 0 in taken && 7 in m.crawledRooms && m.crawledRooms[7].pos == ORIGIN
  {
    hide Reach, NodeExits, GraphOf, LowestOf, Tracked, Placed, Mapper.AtRoomZero;
    SevenIsReached();
    forall r | r in m.crawledRooms
      ensures r in {1, 7}
    {
      assert r in ZeroThenSeven().rooms;
    }
    SevenIsLowest(m.crawledRooms.Keys, taken);
  }

  lemma SevenIsReached()
    ensures !Endless(EAST, ZeroThenSeven(), 0) && Reach(GraphOf(EAST, ZeroThenSeven()), 1, 7)
  {
    hide NodeExits, Reach;
    EastNodes(7);
    IsNeighbour(EAST, ZeroThenSeven(), 1, "east");
    ReachStep(GraphOf(EAST, ZeroThenSeven()), 1, 7);
  }

  lemma SevenIsLowest(crawled: set<int>, taken: seq<int>)
    requires Tracked(EAST, ZeroThenSeven(), 0, crawled, [], taken) && 7 in crawled && crawled <= {1, 7}
    ensures LowestOf(taken) == 7 && 0 in taken
  {
    hide NodeExits, LowestOf;
    EastNodes(7);
    assert QueueIds([]) == {};
    assert 7 in taken;
    forall i | 1 <= i < |taken|
      ensures taken[i] == 7
    {
      assert taken[1..][i - 1] == taken[i];
      assert taken[i] in Elements(taken[1..]);
    }
    SevensAfterZero(taken);
  }

  lemma {:induction false} SevensAfterZero(taken: seq<int>)
    requires |taken| >= 2 && taken[0] == 0 && forall i :: 1 <= i < |taken| ==> taken[i] == 7
    ensures LowestOf(taken) == 7
  {
    var n := |taken| - 1;
    if n >= 2 {
      SevensAfterZero(taken[..n]);
    } else {
      assert taken[..n][..0] == [];
      assert LowestOf(taken[..n]) == 0;
    }
  }

  // The start room leads east to room 2, and that one east to room 0.
  function ThereAndZero(): World {
    World(map[1 := EastTo(2), 2 := EastTo(0)], 1)
  }

  // The start room is drawn to the east of the room that lies to its east.
  method StartRoomMoves() returns (m: Mapper)
    ensures 1 in m.crawledRooms && 2 in m.crawledRooms
    ensures "east" in m.crawledRooms[1].exits && m.crawledRooms[1].exits["east"] == NodeExit(2, Delta(1, 0, 0))
    ensures m.crawledRooms[1].pos == m.crawledRooms[2].pos.Combine(Delta(1, 0, 0))
  {
    hide Endless, Reach, NodeExits, GraphOf, LowestOf, Mapper.Charted, Mapper.Mapped;
    TwoIsReached();
    m := new Mapper(1);
    ghost var offset, taken, _, _ := m.Start(EAST, ThereAndZero());
    EastOfEast(m, offset, taken);
  }

  lemma EastOfEast(m: Mapper, offset: Delta, taken: seq<int>)
    requires m.rootRoomId == 1 && m.Charted(EAST, ThereAndZero(), offset, taken)
    ensures 1 in m.crawledRooms && 2 in m.crawledRooms
    ensures "east" in m.crawledRooms[1].exits && m.crawledRooms[1].exits["east"] == NodeExit(2, Delta(1, 0, 0))
    ensures m.crawledRooms[1].pos == m.crawledRooms[2].pos.Combine(Delta(1, 0, 0))
  {
    hide Reach, NodeExits, GraphOf, LowestOf, Tracked, Placed, Again;
    TwoIsReached();
    ZeroAgain(m.crawledRooms.Keys, taken);
  }

  lemma TwoIsReached()
    ensures !Endless(EAST, ThereAndZero(), 1)
    ensures Reach(GraphOf(EAST, ThereAndZero()), 1, 1) && Reach(GraphOf(EAST, ThereAndZero()), 1, 2)
    ensures NodeExits(EAST, EastTo(2)) == map["east" := NodeExit(2, Delta(1, 0, 0))]
    ensures NodeExits(EAST, EastTo(0)) == map["east" := NodeExit(0, Delta(1, 0, 0))]
  {
    hide NodeExits, Reach;
    EastNodes(2);
    EastNodes(0);
    IsNeighbour(EAST, ThereAndZero(), 1, "east");
    ReachRefl(GraphOf(EAST, ThereAndZero()), 1);
    ReachStep(GraphOf(EAST, ThereAndZero()), 1, 2);
  }

  lemma ZeroAgain(crawled: set<int>, taken: seq<int>)
    requires Tracked(EAST, ThereAndZero(), 1, crawled, [], taken) && 2 in crawled && 0 !in crawled
    ensures Again(taken)
  {
    hide NodeExits;
    EastNodes(0);
    assert QueueIds([]) == {};
    assert "east" in NodeExits(EAST, ThereAndZero().rooms[2]) && NodeExits(EAST, ThereAndZero().rooms[2])["east"].roomId == 0;
    assert 0 in Named(EAST, ThereAndZero(), crawled);
    var i :| 0 <= i < |taken| && taken[i] == 0;
    assert taken[1..][i - 1] == 0;
  }

  // A start room with an exit to room 0; room 1 is the start room when none is configured.
  lemma LoopIsEndless()
    ensures Endless(EAST, World(map[1 := EastTo(0)], 0), 1)
  {
    hide NodeExits, Reach;
    EastNodes(0);
    var exits := NodeExits(EAST, EastTo(0));
    assert "east" in exits && exits["east"].roomId in TargetsOf(exits, exits.Keys);
    ReachRefl(GraphOf(EAST, World(map[1 := EastTo(0)], 0)), 1);
  }
}
