/**
 CreateEphemeralMaze2D of internal/procedural/rooms.go: a maze becomes ephemeral rooms with exits.
 */
module MazeRooms {
  import opened Graphs
  import opened Common
  import opened GridMaze
  import opened Rooms

  function Opposite(direction: string): string {
    if direction == "north" then "south"
    else if direction == "south" then "north"
    else if direction == "west" then "east"
    else "west"
  }

  function Dx(direction: string): int {
    if direction == "west" then -1 else if direction == "east" then 1 else 0
  }

  function Dy(direction: string): int {
    if direction == "north" then -1 else if direction == "south" then 1 else 0
  }

  predicate IsCompass(direction: string) {
    direction in ["north", "west", "south", "east"]
  }

  // Where the connections of a maze lead: from a room in a direction to a room.
  type Links = map<(GridRoom, string), GridRoom>

  ghost predicate Reciprocal(links: Links) {
    forall k :: k in links ==>
      IsCompass(k.1) && (links[k], Opposite(k.1)) in links && links[(links[k], Opposite(k.1))] == k.0
  }

  // Ids are taken from allRoomIds in order, one for each room that has one.
  ghost predicate IdsGiven(store: RoomStore, allRoomIds: seq<int>, idOf: map<GridRoom, int>)
    reads store
  {
    && |idOf| <= |allRoomIds| && NoDuplicates(allRoomIds)
    && (forall k :: 0 <= k < |allRoomIds| ==> allRoomIds[k] in store.rooms && store.rooms[allRoomIds[k]].roomId == allRoomIds[k])
    && (forall a: GridRoom :: a in idOf ==> exists k :: 0 <= k < |idOf| && allRoomIds[k] == idOf[a])
    && (forall a: GridRoom, b: GridRoom :: a in idOf && b in idOf && idOf[a] == idOf[b] ==> a == b)
  }

  // The rooms that have an id have the exits in written and no others; the rooms of the ids not taken
  // yet have no exits.
  ghost predicate Compiled(store: RoomStore, allRoomIds: seq<int>, links: Links,
                           idOf: map<GridRoom, int>, written: set<(GridRoom, string)>)
    reads store, store.rooms.Values
  {
    && IdsGiven(store, allRoomIds, idOf)
    && (forall a: GridRoom :: a in idOf ==> HasExits(store, links, idOf, written, a))
    && (forall k :: |idOf| <= k < |allRoomIds| ==> store.rooms[allRoomIds[k]].exits == map[])
    && (forall k :: k in written ==> k.0 in idOf)
  }

  ghost predicate HasExits(store: RoomStore, links: Links, idOf: map<GridRoom, int>, written: set<(GridRoom, string)>, a: GridRoom)
    reads store, store.rooms.Values
  {
    && a in idOf && idOf[a] in store.rooms
    && forall d ::
         && (d in store.rooms[idOf[a]].exits <==> (a, d) in written)
         && ((a, d) in written ==>
               && (a, d) in links && links[(a, d)] in idOf
               && store.rooms[idOf[a]].exits[d] == RoomExit(idOf[links[(a, d)]], d))
  }

  ghost function NewRooms(store: RoomStore, allRoomIds: seq<int>): set<Room>
    reads store
  {
    set id | id in allRoomIds && id in store.rooms :: store.rooms[id]
  }

  // The next id goes to a room that has none yet.
  method GiveId(store: RoomStore, allRoomIds: seq<int>, idOf0: map<GridRoom, int>, room: GridRoom,
                ghost links: Links, ghost written: set<(GridRoom, string)>)
    returns (idOf: map<GridRoom, int>)
    requires Compiled(store, allRoomIds, links, idOf0, written)
    requires room !in idOf0 ==> |idOf0| < |allRoomIds|
    ensures Compiled(store, allRoomIds, links, idOf, written)
    ensures idOf.Keys == idOf0.Keys + {room} && forall a: GridRoom :: a in idOf0 ==> idOf[a] == idOf0[a]
  {
    idOf := idOf0;
    if room !in idOf {
      idOf := idOf[room := allRoomIds[|idOf0|]];
      NewIdCompiled(store, allRoomIds, links, idOf0, written, room);
    }
  }

  lemma NewIdGiven(store: RoomStore, allRoomIds: seq<int>, idOf: map<GridRoom, int>, room: GridRoom)
    requires IdsGiven(store, allRoomIds, idOf) && room !in idOf && |idOf| < |allRoomIds|
    ensures IdsGiven(store, allRoomIds, idOf[room := allRoomIds[|idOf|]])
    ensures |idOf[room := allRoomIds[|idOf|]]| == |idOf| + 1
  {
    var n := |idOf|;
    var idOf' := idOf[room := allRoomIds[n]];
    forall a: GridRoom | a in idOf'
      ensures exists k :: 0 <= k < n + 1 && allRoomIds[k] == idOf'[a]
    {
      if a in idOf {
        var k :| 0 <= k < n && allRoomIds[k] == idOf[a];
      } else {
        assert allRoomIds[n] == idOf'[a];
      }
    }
  }

  lemma NewIdCompiled(store: RoomStore, allRoomIds: seq<int>, links: Links, idOf: map<GridRoom, int>,
                      written: set<(GridRoom, string)>, room: GridRoom)
    requires Compiled(store, allRoomIds, links, idOf, written) && room !in idOf && |idOf| < |allRoomIds|
    ensures Compiled(store, allRoomIds, links, idOf[room := allRoomIds[|idOf|]], written)
  {
    NewIdGiven(store, allRoomIds, idOf, room);
    var idOf' := idOf[room := allRoomIds[|idOf|]];
    forall a: GridRoom | a in idOf'
      ensures HasExits(store, links, idOf', written, a)
    {
      if a in idOf {
        assert HasExits(store, links, idOf, written, a);
      }
    }
  }

  // The ids of two rooms lead to two different rooms in the store.
  lemma OwnRoom(store: RoomStore, allRoomIds: seq<int>, idOf: map<GridRoom, int>, a: GridRoom)
    requires IdsGiven(store, allRoomIds, idOf) && a in idOf
    ensures idOf[a] in store.rooms && store.rooms[idOf[a]].roomId == idOf[a]
    ensures forall b: GridRoom :: b in idOf && b != a ==>
      idOf[b] in store.rooms && store.rooms[idOf[b]].roomId == idOf[b] && store.rooms[idOf[b]] != store.rooms[idOf[a]]
    ensures forall k :: |idOf| <= k < |allRoomIds| ==> store.rooms[allRoomIds[k]] != store.rooms[idOf[a]]
  {
  }

  // One exit of a room that has an id.
  method WriteExit(store: RoomStore, r1: Room, direction: string, target: int, ghost allRoomIds: seq<int>, ghost links: Links,
                   ghost idOf: map<GridRoom, int>, ghost written: set<(GridRoom, string)>, ghost a: GridRoom)
    requires Compiled(store, allRoomIds, links, idOf, written)
    requires (a, direction) in links && a in idOf && links[(a, direction)] in idOf && target == idOf[links[(a, direction)]]
    requires idOf[a] in store.rooms && store.rooms[idOf[a]] == r1
    modifies r1`exits
    ensures Compiled(store, allRoomIds, links, idOf, written + {(a, direction)})
  {
    hide IdsGiven;
    OwnRoom(store, allRoomIds, idOf, a);
    r1.exits := r1.exits[direction := RoomExit(target, direction)];
  }

  lemma BackLink(links: Links, a: GridRoom, direction: string)
    requires Reciprocal(links) && (a, direction) in links
    ensures (links[(a, direction)], Opposite(direction)) in links && links[(links[(a, direction)], Opposite(direction))] == a
  {
    assert (a, direction).0 == a && (a, direction).1 == direction;
  }

  // Two connected rooms get their pair of exits.
  method Connect(store: RoomStore, r1: Room, r2: Room, direction: string, ghost allRoomIds: seq<int>, ghost links: Links,
                 ghost idOf: map<GridRoom, int>, ghost written: set<(GridRoom, string)>, ghost a: GridRoom)
    requires Compiled(store, allRoomIds, links, idOf, written) && Reciprocal(links)
    requires (a, direction) in links && a in idOf && links[(a, direction)] in idOf
    requires idOf[a] in store.rooms && store.rooms[idOf[a]] == r1
    requires idOf[links[(a, direction)]] in store.rooms && store.rooms[idOf[links[(a, direction)]]] == r2
    modifies r1`exits, r2`exits
    ensures Compiled(store, allRoomIds, links, idOf, written + {(a, direction), (links[(a, direction)], Opposite(direction))})
  {
    hide Compiled, HasExits, Reciprocal;
    BackLink(links, a, direction);
    RoomsOf(store, allRoomIds, links, idOf, written);
    ghost var b: GridRoom := links[(a, direction)];
    WriteExit(store, r1, direction, r2.roomId, allRoomIds, links, idOf, written, a);
    WriteExit(store, r2, Opposite(direction), r1.roomId, allRoomIds, links, idOf, written + {(a, direction)}, b);
    assert written + {(a, direction)} + {(b, Opposite(direction))} == written + {(a, direction), (b, Opposite(direction))};
  }

  lemma RoomsOf(store: RoomStore, allRoomIds: seq<int>, links: Links, idOf: map<GridRoom, int>, written: set<(GridRoom, string)>)
    requires Compiled(store, allRoomIds, links, idOf, written)
    ensures forall a: GridRoom :: a in idOf ==>
      idOf[a] in store.rooms && store.rooms[idOf[a]].roomId == idOf[a] && store.rooms[idOf[a]] in NewRooms(store, allRoomIds)
  {
  }

  // ---------- the maze ----------

  // A grid that holds the rooms of live, each in its own cell, with connections seen from both ends.
  ghost predicate MazeGrid(maze: array2<GridRoom?>, live: set<GridRoom>)
    reads maze, live`connections
  {
    && (forall x, y :: 0 <= x < maze.Length1 && 0 <= y < maze.Length0 && maze[y, x] != null ==>
          maze[y, x] in live && maze[y, x].x == x && maze[y, x].y == y)
    && (forall r :: r in live ==> 0 <= r.x < maze.Length1 && 0 <= r.y < maze.Length0 && maze[r.y, r.x] == r)
    && (forall a, b :: a in live && b in live && a.IsConnectedTo(b) ==> b.IsConnectedTo(a))
  }

  // The connected neighbour of r in a direction, if there is one.
  ghost function LinkFrom(maze: array2<GridRoom?>, r: GridRoom, direction: string): (b: GridRoom?)
    reads maze, r`connections
  {
    var x, y := r.x + Dx(direction), r.y + Dy(direction);
    if 0 <= x < maze.Length1 && 0 <= y < maze.Length0 && maze[y, x] != null && r.IsConnectedTo(maze[y, x]) then maze[y, x] else null
  }

  // All links of a maze.
  ghost predicate LinksOf(maze: array2<GridRoom?>, live: set<GridRoom>, links: Links)
    reads maze, live`connections
  {
    && (forall k :: k in links ==> k.0 in live && IsCompass(k.1) && links[k] == LinkFrom(maze, k.0, k.1) && links[k] in live)
    && (forall r, d :: r in live && IsCompass(d) && LinkFrom(maze, r, d) != null ==> (r, d) in links)
  }

  // A link is seen from its other end.
  lemma LinkBack(maze: array2<GridRoom?>, live: set<GridRoom>, a: GridRoom, d: string, b: GridRoom)
    requires MazeGrid(maze, live) && a in live && b in live && IsCompass(d) && LinkFrom(maze, a, d) == b
    ensures LinkFrom(maze, b, Opposite(d)) == a
  {
    assert b.x == a.x + Dx(d) && b.y == a.y + Dy(d);
    assert a.IsConnectedTo(b) && b.IsConnectedTo(a);
    assert Dx(Opposite(d)) == -Dx(d) && Dy(Opposite(d)) == -Dy(d);
  }

  lemma LinksReciprocal(maze: array2<GridRoom?>, live: set<GridRoom>, links: Links)
    requires MazeGrid(maze, live) && LinksOf(maze, live, links)
    ensures Reciprocal(links)
  {
    hide MazeGrid, LinkFrom;
    forall k | k in links
      ensures IsCompass(k.1) && (links[k], Opposite(k.1)) in links && links[(links[k], Opposite(k.1))] == k.0
    {
      LinkBack(maze, live, k.0, k.1, links[k]);
      assert IsCompass(Opposite(k.1));
    }
  }

  // A room is not its own neighbour.
  lemma LinkElsewhere(maze: array2<GridRoom?>, live: set<GridRoom>, room: GridRoom, direction: string)
    requires MazeGrid(maze, live) && IsCompass(direction)
    ensures LinkFrom(maze, room, direction) != room
  {
    hide GridRoom.IsConnectedTo;
    assert Dx(direction) != 0 || Dy(direction) != 0;
  }

  lemma LinkHere(maze: array2<GridRoom?>, live: set<GridRoom>, links: Links, room: GridRoom, direction: string)
    requires MazeGrid(maze, live) && LinksOf(maze, live, links) && Reciprocal(links) && room in live && IsCompass(direction)
    ensures LinkFrom(maze, room, direction) == null ==> (room, direction) !in links
    ensures LinkFrom(maze, room, direction) != null ==>
      && LinkFrom(maze, room, direction) in live && LinkFrom(maze, room, direction) != room
      && (room, direction) in links && links[(room, direction)] == LinkFrom(maze, room, direction)
      && (links[(room, direction)], Opposite(direction)) in links
  {
    hide MazeGrid, LinkFrom, IsCompass, Opposite;
    LinkElsewhere(maze, live, room, direction);
  }

  lemma LinksOfAll(maze: array2<GridRoom?>, live: set<GridRoom>)
    requires MazeGrid(maze, live)
    ensures LinksOf(maze, live, AllLinks(maze, live))
  {
    hide GridRoom.IsConnectedTo, MazeGrid, LinkFrom;
    forall r: GridRoom, d: string | r in live && LinkFrom(maze, r, d) != null
      ensures LinkFrom(maze, r, d) in live
    {
      LinkIsLive(maze, live, r, d);
    }
  }

  lemma LinkIsLive(maze: array2<GridRoom?>, live: set<GridRoom>, r: GridRoom, d: string)
    requires MazeGrid(maze, live) && LinkFrom(maze, r, d) != null
    ensures LinkFrom(maze, r, d) in live
  {
    hide GridRoom.IsConnectedTo;
  }

  ghost function AllLinks(maze: array2<GridRoom?>, live: set<GridRoom>): Links
    reads maze, live`connections
  {
    map r: GridRoom, d: string | r in live && d in {"north", "west", "south", "east"} && LinkFrom(maze, r, d) != null
      :: (r, d) := LinkFrom(maze, r, d)
  }

  // One of the four blocks for a cell: link it with its neighbour in a direction, if connected.
  method LinkDirection(maze: array2<GridRoom?>, store: RoomStore, allRoomIds: seq<int>, idOf0: map<GridRoom, int>,
                       room: GridRoom, direction: string,
                       ghost live: set<GridRoom>, ghost links: Links, ghost written0: set<(GridRoom, string)>)
    returns (idOf: map<GridRoom, int>, ghost written: set<(GridRoom, string)>)
    requires MazeGrid(maze, live) && LinksOf(maze, live, links) && Reciprocal(links)
    requires Compiled(store, allRoomIds, links, idOf0, written0)
    requires room in live && room in idOf0 && IsCompass(direction)
    requires idOf0.Keys <= live && |live| == |allRoomIds| && written0 <= links.Keys
    modifies NewRooms(store, allRoomIds)`exits
    ensures Compiled(store, allRoomIds, links, idOf, written)
    ensures idOf0.Keys <= idOf.Keys <= live && written0 <= written <= links.Keys
    ensures forall a: GridRoom :: a in idOf0 ==> idOf[a] == idOf0[a]
    ensures (room, direction) in links ==> (room, direction) in written
  {
    hide Compiled, HasExits, IdsGiven, MazeGrid, LinksOf, Reciprocal;
    idOf, written := idOf0, written0;
    LinkHere(maze, live, links, room, direction);
    var x, y := room.x + Dx(direction), room.y + Dy(direction);
    if 0 <= x < maze.Length1 && 0 <= y < maze.Length0 && maze[y, x] != null {
      if room.IsConnectedTo(maze[y, x]) {
        var other: GridRoom := maze[y, x];
        IdsLeft(idOf0, live, other);
        idOf := GiveId(store, allRoomIds, idOf0, other, links, written0);
        RoomsOf(store, allRoomIds, links, idOf, written0);
        Connect(store, store.rooms[idOf[room]], store.rooms[idOf[other]], direction, allRoomIds, links, idOf, written0, room);
        written := written0 + {(room, direction), (other, Opposite(direction))};
      }
    }
  }

  lemma IdsLeft(idOf: map<GridRoom, int>, live: set<GridRoom>, room: GridRoom)
    requires idOf.Keys <= live && room in live
    ensures room !in idOf ==> |idOf| < |live|
  {
    if room !in idOf {
      SubsetSize(idOf.Keys + {room}, live);
    }
  }

  lemma {:induction false} SubsetSize<T>(A: set<T>, B: set<T>)
    requires A <= B
    ensures |A| <= |B| && (|A| == |B| ==> A == B)
    decreases A
  {
    if A != {} {
      var x :| x in A;
      SubsetSize(A - {x}, B - {x});
    }
  }

  lemma {:induction false} ValuesCount(idOf: map<GridRoom, int>)
    requires forall a: GridRoom, b: GridRoom :: a in idOf && b in idOf && idOf[a] == idOf[b] ==> a == b
    ensures |idOf.Values| == |idOf|
    decreases idOf.Keys
  {
    if idOf.Keys == {} {
      assert idOf.Values == {};
    } else {
      var a: GridRoom :| a in idOf;
      var rest := idOf - {a};
      ValuesCount(rest);
      assert rest.Keys == idOf.Keys - {a};
      forall v
        ensures v in idOf.Values <==> v in rest.Values || v == idOf[a]
      {
        if v in idOf.Values && v != idOf[a] {
          var b: GridRoom :| b in idOf && idOf[b] == v;
          assert b in rest && rest[b] == v;
        }
      }
      assert idOf.Values == rest.Values + {idOf[a]} && idOf[a] !in rest.Values;
    }
  }

  lemma {:induction false} SeqCount(s: seq<int>)
    requires NoDuplicates(s)
    ensures |set x | x in s| == |s|
  {
    if s != [] {
      var n := |s| - 1;
      SeqCount(s[..n]);
      assert (set x | x in s) == (set x | x in s[..n]) + {s[n]};
    }
  }

  // The counting loop of CreateEphemeralMaze2D.
  method CountRooms(maze: array2<GridRoom?>, ghost live: set<GridRoom>) returns (roomCt: nat)
    requires MazeGrid(maze, live)
    ensures roomCt == |live|
  {
    hide GridRoom.IsConnectedTo;
    roomCt := 0;
    ghost var counted: set<GridRoom> := {};
    for x := 0 to maze.Length1
      invariant roomCt == |counted| && counted <= live
      invariant forall r :: r in live ==> (r in counted <==> r.x < x)
    {
      for y := 0 to maze.Length0
        invariant roomCt == |counted| && counted <= live
        invariant forall r :: r in live ==> (r in counted <==> r.x < x || (r.x == x && r.y < y))
      {
        if maze[y, x] == null {
          continue;
        }
        counted := counted + {maze[y, x]};
        roomCt := roomCt + 1;
      }
    }
    assert counted == live;
  }

  // What the cells already treated have contributed to the start and end ids.
  ghost predicate Marked(done: set<GridRoom>, idOf: map<GridRoom, int>, startRoomId: int, endRoomId: int)
    reads done`isStart, done`isEnd
  {
    && done <= idOf.Keys
    && ((startRoomId == 0 && forall r :: r in done ==> !r.isStart) ||
        exists r :: r in done && r.isStart && startRoomId == idOf[r])
    && ((endRoomId == 0 && forall r :: r in done ==> !r.isEnd || r.isStart) ||
        exists r :: r in done && r.isEnd && !r.isStart && endRoomId == idOf[r])
  }

  lemma MarkedExtends(done: set<GridRoom>, idOf: map<GridRoom, int>, idOf': map<GridRoom, int>, startRoomId: int, endRoomId: int)
    requires Marked(done, idOf, startRoomId, endRoomId)
    requires idOf.Keys <= idOf'.Keys && forall a: GridRoom :: a in idOf ==> idOf'[a] == idOf[a]
    ensures Marked(done, idOf', startRoomId, endRoomId)
  {
  }

  // All links of these rooms are written.
  ghost predicate AllWritten(done: set<GridRoom>, links: Links, written: set<(GridRoom, string)>) {
    forall r, d :: r in done && (r, d) in links ==> (r, d) in written
  }

  ghost predicate Progress(idOf0: map<GridRoom, int>, idOf: map<GridRoom, int>, live: set<GridRoom>,
                           written0: set<(GridRoom, string)>, written: set<(GridRoom, string)>, links: Links) {
    && idOf0.Keys <= idOf.Keys <= live && written0 <= written <= links.Keys
    && forall a: GridRoom :: a in idOf0 ==> idOf[a] == idOf0[a]
  }

  // The body of the main loop for a cell that holds a room.
  method CompileCell(maze: array2<GridRoom?>, store: RoomStore, allRoomIds: seq<int>, idOf0: map<GridRoom, int>, room: GridRoom,
                     startRoomId0: int, endRoomId0: int, ghost done: set<GridRoom>,
                     ghost live: set<GridRoom>, ghost links: Links, ghost written0: set<(GridRoom, string)>)
    returns (idOf: map<GridRoom, int>, startRoomId: int, endRoomId: int, ghost written: set<(GridRoom, string)>)
    requires MazeGrid(maze, live) && LinksOf(maze, live, links) && Reciprocal(links)
    requires Compiled(store, allRoomIds, links, idOf0, written0)
    requires room in live && done <= live && Marked(done, idOf0, startRoomId0, endRoomId0) && AllWritten(done, links, written0)
    requires Progress(idOf0, idOf0, live, written0, written0, links) && |live| == |allRoomIds|
    modifies NewRooms(store, allRoomIds)`exits
    ensures Compiled(store, allRoomIds, links, idOf, written)
    ensures Progress(idOf0, idOf, live, written0, written, links)
    ensures Marked(done + {room}, idOf, startRoomId, endRoomId) && AllWritten(done + {room}, links, written)
  {
    hide *;
    idOf, startRoomId, endRoomId := EnterRoom(maze, store, allRoomIds, idOf0, room, startRoomId0, endRoomId0, done, live, links, written0);
    ghost var idOf1 := idOf;
    idOf, written := LinkCell(maze, store, allRoomIds, idOf, room, live, links, written0);
    ProgressTwice(idOf0, idOf1, idOf, live, written0, written0, written, links);
    GetProgress(idOf1, idOf, live, written0, written, links);
    MarkedExtends(done + {room}, idOf1, idOf, startRoomId, endRoomId);
    WrittenToo(done, room, links, written0, written);
  }

  lemma WrittenToo(done: set<GridRoom>, room: GridRoom, links: Links, written0: set<(GridRoom, string)>, written: set<(GridRoom, string)>)
    requires AllWritten(done, links, written0) && written0 <= written && AllWritten({room}, links, written)
    ensures AllWritten(done + {room}, links, written)
  {
  }

  // The part of the body before the four blocks.
  method EnterRoom(maze: array2<GridRoom?>, store: RoomStore, allRoomIds: seq<int>, idOf0: map<GridRoom, int>, room: GridRoom,
                   startRoomId0: int, endRoomId0: int, ghost done: set<GridRoom>,
                   ghost live: set<GridRoom>, ghost links: Links, ghost written: set<(GridRoom, string)>)
    returns (idOf: map<GridRoom, int>, startRoomId: int, endRoomId: int)
    requires Compiled(store, allRoomIds, links, idOf0, written)
    requires room in live && Marked(done, idOf0, startRoomId0, endRoomId0)
    requires Progress(idOf0, idOf0, live, written, written, links) && |live| == |allRoomIds|
    ensures Compiled(store, allRoomIds, links, idOf, written) && room in idOf
    ensures Progress(idOf0, idOf, live, written, written, links) && Progress(idOf, idOf, live, written, written, links)
    ensures Marked(done + {room}, idOf, startRoomId, endRoomId)
  {
    hide *;
    GetProgress(idOf0, idOf0, live, written, written, links);
    IdsLeft(idOf0, live, room);
    idOf := GiveId(store, allRoomIds, idOf0, room, links, written);
    MakeProgress(idOf0, idOf, live, written, written, links);
    startRoomId, endRoomId := Mark(idOf0, idOf, room, startRoomId0, endRoomId0, done);
  }

  lemma ProgressTwice(idOf0: map<GridRoom, int>, idOf1: map<GridRoom, int>, idOf2: map<GridRoom, int>, live: set<GridRoom>,
                      written0: set<(GridRoom, string)>, written1: set<(GridRoom, string)>, written2: set<(GridRoom, string)>, links: Links)
    requires Progress(idOf0, idOf1, live, written0, written1, links) && Progress(idOf1, idOf2, live, written1, written2, links)
    ensures Progress(idOf0, idOf2, live, written0, written2, links)
  {
  }

  lemma GetProgress(idOf0: map<GridRoom, int>, idOf: map<GridRoom, int>, live: set<GridRoom>,
                    written0: set<(GridRoom, string)>, written: set<(GridRoom, string)>, links: Links)
    requires Progress(idOf0, idOf, live, written0, written, links)
    ensures idOf0.Keys <= idOf.Keys <= live && written0 <= written <= links.Keys
    ensures forall a: GridRoom :: a in idOf0 ==> a in idOf && idOf[a] == idOf0[a]
  {
  }

  lemma MakeProgress(idOf0: map<GridRoom, int>, idOf: map<GridRoom, int>, live: set<GridRoom>,
                     written0: set<(GridRoom, string)>, written: set<(GridRoom, string)>, links: Links)
    requires idOf0.Keys <= idOf.Keys <= live && written0 <= written <= links.Keys
    requires forall a: GridRoom :: a in idOf0 ==> idOf[a] == idOf0[a]
    ensures Progress(idOf0, idOf, live, written0, written, links) && Progress(idOf, idOf, live, written, written, links)
  {
  }

  // The source tests for the start first, so a room that is both counts as the start.
  method Mark(ghost idOf0: map<GridRoom, int>, idOf: map<GridRoom, int>, room: GridRoom, startRoomId0: int, endRoomId0: int,
              ghost done: set<GridRoom>)
    returns (startRoomId: int, endRoomId: int)
    requires Marked(done, idOf0, startRoomId0, endRoomId0) && room in idOf
    requires idOf0.Keys <= idOf.Keys && forall a: GridRoom :: a in idOf0 ==> idOf[a] == idOf0[a]
    ensures Marked(done + {room}, idOf, startRoomId, endRoomId)
  {
    MarkedExtends(done, idOf0, idOf, startRoomId0, endRoomId0);
    startRoomId, endRoomId := startRoomId0, endRoomId0;
    if room.isStart {
      startRoomId := idOf[room];
    } else if room.isEnd {
      endRoomId := idOf[room];
    }
  }

  // The four blocks for a cell.
  method LinkCell(maze: array2<GridRoom?>, store: RoomStore, allRoomIds: seq<int>, idOf0: map<GridRoom, int>, room: GridRoom,
                  ghost live: set<GridRoom>, ghost links: Links, ghost written0: set<(GridRoom, string)>)
    returns (idOf: map<GridRoom, int>, ghost written: set<(GridRoom, string)>)
    requires MazeGrid(maze, live) && LinksOf(maze, live, links) && Reciprocal(links)
    requires Compiled(store, allRoomIds, links, idOf0, written0)
    requires room in live && room in idOf0 && |live| == |allRoomIds|
    requires Progress(idOf0, idOf0, live, written0, written0, links)
    modifies NewRooms(store, allRoomIds)`exits
    ensures Compiled(store, allRoomIds, links, idOf, written)
    ensures Progress(idOf0, idOf, live, written0, written, links)
    ensures AllWritten({room}, links, written)
  {
    hide Compiled, HasExits, IdsGiven, MazeGrid, LinksOf, Reciprocal;
    CompassOnly(maze, live, links);
    idOf, written := LinkDirection(maze, store, allRoomIds, idOf0, room, "north", live, links, written0);
    idOf, written := LinkDirection(maze, store, allRoomIds, idOf, room, "west", live, links, written);
    idOf, written := LinkDirection(maze, store, allRoomIds, idOf, room, "south", live, links, written);
    idOf, written := LinkDirection(maze, store, allRoomIds, idOf, room, "east", live, links, written);
  }

  lemma CompassOnly(maze: array2<GridRoom?>, live: set<GridRoom>, links: Links)
    requires LinksOf(maze, live, links)
    ensures forall k :: k in links ==> IsCompass(k.1)
  {
  }

  // The main loop of CreateEphemeralMaze2D.
  method CompileCells(maze: array2<GridRoom?>, store: RoomStore, allRoomIds: seq<int>, ghost live: set<GridRoom>, ghost links: Links)
    returns (idOf: map<GridRoom, int>, startRoomId: int, endRoomId: int)
    requires MazeGrid(maze, live) && LinksOf(maze, live, links) && Reciprocal(links)
    requires Compiled(store, allRoomIds, links, map[], {}) && |live| == |allRoomIds|
    modifies NewRooms(store, allRoomIds)`exits
    ensures idOf.Keys == live && Marked(live, idOf, startRoomId, endRoomId)
    ensures Compiled(store, allRoomIds, links, idOf, links.Keys)
  {
    hide Compiled, HasExits, IdsGiven, LinksOf, Reciprocal, GridRoom.IsConnectedTo, NewRooms;
    idOf, startRoomId, endRoomId := map[], 0, 0;
    ghost var written: set<(GridRoom, string)>, done: set<GridRoom> := {}, {};
    for y := 0 to maze.Length0
      invariant Compiled(store, allRoomIds, links, idOf, written) && Progress(map[], idOf, live, {}, written, links)
      invariant Marked(done, idOf, startRoomId, endRoomId) && AllWritten(done, links, written)
      invariant done <= live && forall r :: r in live && r.y < y ==> r in done
    {
      for x := 0 to maze.Length1
        invariant Compiled(store, allRoomIds, links, idOf, written) && Progress(map[], idOf, live, {}, written, links)
        invariant Marked(done, idOf, startRoomId, endRoomId) && AllWritten(done, links, written)
        invariant done <= live && forall r :: r in live && (r.y < y || (r.y == y && r.x < x)) ==> r in done
      {
        if maze[y, x] == null {
          continue;
        }
        ghost var room: GridRoom := maze[y, x];
        idOf, startRoomId, endRoomId, written :=
          CompileCell(maze, store, allRoomIds, idOf, maze[y, x], startRoomId, endRoomId, done, live, links, written);
        done := done + {room};
      }
    }
    assert done == live;
    AllOfThem(maze, live, links, written);
  }

  lemma AllOfThem(maze: array2<GridRoom?>, live: set<GridRoom>, links: Links, written: set<(GridRoom, string)>)
    requires LinksOf(maze, live, links) && written <= links.Keys && AllWritten(live, links, written)
    ensures written == links.Keys
  {
    forall k | k in links.Keys
      ensures k in written
    {
      assert k == (k.0, k.1);
    }
  }

  // ---------- the compiled maze ----------

  // The rooms of the store with the ids of idOf form a copy of the maze: one id for each room, and
  // from each an exit in a direction exactly where the maze has a connected neighbour there.
  ghost predicate Mirrors(maze: array2<GridRoom?>, live: set<GridRoom>, store: RoomStore, idOf: map<GridRoom, int>)
    reads maze, live`connections, store, store.rooms.Values
  {
    && idOf.Keys == live
    && (forall a: GridRoom, b: GridRoom :: a in live && b in live && idOf[a] == idOf[b] ==> a == b)
    && (forall a: GridRoom :: a in live ==> SameExits(maze, live, store, idOf, a))
  }

  ghost predicate SameExits(maze: array2<GridRoom?>, live: set<GridRoom>, store: RoomStore, idOf: map<GridRoom, int>, a: GridRoom)
    reads maze, a`connections, store, store.rooms.Values
  {
    && a in idOf && idOf[a] in store.rooms
    && forall d ::
         && (d in store.rooms[idOf[a]].exits <==> IsCompass(d) && LinkFrom(maze, a, d) != null)
         && (d in store.rooms[idOf[a]].exits ==>
               && LinkFrom(maze, a, d) in live && LinkFrom(maze, a, d) in idOf
               && store.rooms[idOf[a]].exits[d] == RoomExit(idOf[LinkFrom(maze, a, d)], d))
  }

  lemma CompiledMirrors(maze: array2<GridRoom?>, live: set<GridRoom>, store: RoomStore, allRoomIds: seq<int>, links: Links,
                        idOf: map<GridRoom, int>)
    requires LinksOf(maze, live, links) && Compiled(store, allRoomIds, links, idOf, links.Keys) && idOf.Keys == live
    ensures Mirrors(maze, live, store, idOf)
  {
    hide LinkFrom, IsCompass;
    forall a: GridRoom | a in live
      ensures SameExits(maze, live, store, idOf, a)
    {
      assert HasExits(store, links, idOf, links.Keys, a);
    }
  }

  // Ids and rooms match one to one when there are as many.
  lemma AllIdsUsed(store: RoomStore, allRoomIds: seq<int>, idOf: map<GridRoom, int>)
    requires IdsGiven(store, allRoomIds, idOf) && |idOf| == |allRoomIds|
    ensures forall id :: id in allRoomIds <==> id in idOf.Values
  {
    ValuesCount(idOf);
    SeqCount(allRoomIds);
    var all := set id | id in allRoomIds;
    assert idOf.Values <= all;
    SubsetSize(idOf.Values, all);
  }

  lemma StoredUnderId(store: RoomStore)
    requires store.Valid()
    ensures forall id :: id in store.rooms ==> store.rooms[id].roomId == id
  {
  }

  lemma FreshCompiled(store: RoomStore, allRoomIds: seq<int>, links: Links)
    requires NoDuplicates(allRoomIds)
    requires forall id :: id in allRoomIds ==> id in store.rooms && store.rooms[id].roomId == id && store.rooms[id].exits == map[]
    ensures Compiled(store, allRoomIds, links, map[], {})
  {
  }

  // North is the row before, south the row after, west the column before and east the column after; a room
  // has an exit to a connected room there, named and drawn so, and no other exit.
  ghost predicate OnCompass(live: set<GridRoom>, store: RoomStore, idOf: map<GridRoom, int>)
    reads live`connections, store, store.rooms.Values
  {
    && idOf.Keys == live
    && forall a: GridRoom :: a in live ==>
         && idOf[a] in store.rooms && (forall e :: e in store.rooms[idOf[a]].exits ==> e in {"north", "south", "west", "east"})
         && ExitTo(live, store, idOf, a, "north", a.x, a.y - 1) && ExitTo(live, store, idOf, a, "south", a.x, a.y + 1)
         && ExitTo(live, store, idOf, a, "west", a.x - 1, a.y) && ExitTo(live, store, idOf, a, "east", a.x + 1, a.y)
  }

  ghost predicate ExitTo(live: set<GridRoom>, store: RoomStore, idOf: map<GridRoom, int>, a: GridRoom, name: string, x: int, y: int)
    requires idOf.Keys == live && a in live && idOf[a] in store.rooms
    reads a`connections, store, store.rooms.Values
  {
    var exits := store.rooms[idOf[a]].exits;
    && (forall b :: b in live && b.x == x && b.y == y && a.IsConnectedTo(b) ==> name in exits && exits[name] == RoomExit(idOf[b], name))
    && (name in exits ==> exists b :: b in live && b.x == x && b.y == y && a.IsConnectedTo(b))
  }

  lemma MirrorsOnCompass(maze: array2<GridRoom?>, live: set<GridRoom>, store: RoomStore, idOf: map<GridRoom, int>)
    requires MazeGrid(maze, live) && Mirrors(maze, live, store, idOf)
    ensures OnCompass(live, store, idOf)
  {
    hide LinkFrom, MazeGrid, GridRoom.IsConnectedTo, ExitTo, SameExits;
    forall a: GridRoom | a in live
      ensures idOf[a] in store.rooms && (forall e :: e in store.rooms[idOf[a]].exits ==> e in {"north", "south", "west", "east"})
      ensures ExitTo(live, store, idOf, a, "north", a.x, a.y - 1) && ExitTo(live, store, idOf, a, "south", a.x, a.y + 1)
      ensures ExitTo(live, store, idOf, a, "west", a.x - 1, a.y) && ExitTo(live, store, idOf, a, "east", a.x + 1, a.y)
    {
      assert SameExits(maze, live, store, idOf, a);
      ExitNames(maze, live, store, idOf, a);
      ExitIs(maze, live, store, idOf, a, "north", a.x, a.y - 1);
      ExitIs(maze, live, store, idOf, a, "south", a.x, a.y + 1);
      ExitIs(maze, live, store, idOf, a, "west", a.x - 1, a.y);
      ExitIs(maze, live, store, idOf, a, "east", a.x + 1, a.y);
    }
  }

  lemma ExitNames(maze: array2<GridRoom?>, live: set<GridRoom>, store: RoomStore, idOf: map<GridRoom, int>, a: GridRoom)
    requires SameExits(maze, live, store, idOf, a)
    ensures idOf[a] in store.rooms && forall e :: e in store.rooms[idOf[a]].exits ==> e in {"north", "south", "west", "east"}
  {
    hide LinkFrom;
  }

  lemma ExitIs(maze: array2<GridRoom?>, live: set<GridRoom>, store: RoomStore, idOf: map<GridRoom, int>, a: GridRoom,
               name: string, x: int, y: int)
    requires MazeGrid(maze, live) && a in live && idOf.Keys == live && SameExits(maze, live, store, idOf, a)
    requires IsCompass(name) && x == a.x + Dx(name) && y == a.y + Dy(name)
    ensures ExitTo(live, store, idOf, a, name, x, y)
  {
    hide LinkFrom, MazeGrid, GridRoom.IsConnectedTo, IsCompass, Dx, Dy;
    LinkAt(maze, live, a, name, x, y);
  }

  lemma LinkAt(maze: array2<GridRoom?>, live: set<GridRoom>, a: GridRoom, name: string, x: int, y: int)
    requires MazeGrid(maze, live) && a in live && x == a.x + Dx(name) && y == a.y + Dy(name)
    ensures forall b :: b in live && b.x == x && b.y == y && a.IsConnectedTo(b) ==> LinkFrom(maze, a, name) == b
    ensures LinkFrom(maze, a, name) != null ==> exists b :: b in live && b.x == x && b.y == y && a.IsConnectedTo(b)
  {
    hide GridRoom.IsConnectedTo;
    if LinkFrom(maze, a, name) != null {
      var b: GridRoom := LinkFrom(maze, a, name);
      assert b in live && b.x == x && b.y == y && a.IsConnectedTo(b);
    }
  }

  // A free chunk has room for so many rooms.
  predicate HasPlace(chunks: seq<seq<int>>, roomCt: int) {
    roomCt <= 1000 && [] in chunks
  }

  // The source ignores the allocator's error and fails at the first room it has no id for.
  method CreateEphemeralMaze2D(maze: array2<GridRoom?>, store: RoomStore, ghost live: set<GridRoom>)
    returns (panics: bool, allRoomIds: seq<int>, startRoomId: int, endRoomId: int, ghost idOf: map<GridRoom, int>)
    requires MazeGrid(maze, live) && store.Valid()
    modifies store`rooms, store`originalRoomIdLookups, store.chunks
    ensures panics <==> maze.Length0 == 0 || (live != {} && !HasPlace(old(store.chunks[..]), |live|))
    ensures store.Valid()
    ensures panics ==>
      store.rooms == old(store.rooms) && store.originalRoomIdLookups == old(store.originalRoomIdLookups) && store.chunks[..] == old(store.chunks[..])
    ensures !panics ==>
      && |allRoomIds| == |live| && NoDuplicates(allRoomIds)
      && Mirrors(maze, live, store, idOf) && OnCompass(live, store, idOf) && (forall id :: id in allRoomIds <==> id in idOf.Values)
      && Marked(live, idOf, startRoomId, endRoomId)
      && Keeps(old(store.rooms), store.rooms) && Keeps(old(store.originalRoomIdLookups), store.originalRoomIdLookups)
      && forall id :: id in allRoomIds ==> id !in old(store.rooms) && id in store.rooms && fresh(store.rooms[id])
  {
    hide store.Valid, store.Live, Compiled, HasExits, LinksOf, GridRoom.IsConnectedTo, MazeGrid, Reciprocal, Mirrors, OnCompass, Keeps, Marked, HasPlace;
    panics, allRoomIds, startRoomId, endRoomId, idOf := true, [], 0, 0, map[];
    if maze.Length0 > 0 {
      var roomCt := CountRooms(maze, live);
      allRoomIds := NewIds(store, roomCt);
      panics := |allRoomIds| < roomCt;
      if !panics {
        startRoomId, endRoomId, idOf := CompileRooms(maze, store, allRoomIds, live);
        MirrorsOnCompass(maze, live, store, idOf);
      }
    }
  }

  // The main loop of CreateEphemeralMaze2D, with an id for every room.
  method CompileRooms(maze: array2<GridRoom?>, store: RoomStore, allRoomIds: seq<int>, ghost live: set<GridRoom>)
    returns (startRoomId: int, endRoomId: int, ghost idOf: map<GridRoom, int>)
    requires maze.Length0 > 0 && MazeGrid(maze, live) && store.Valid()
    requires |allRoomIds| == |live| && NoDuplicates(allRoomIds)
    requires forall id :: id in allRoomIds ==> id in store.rooms && store.rooms[id].roomId == id && store.rooms[id].exits == map[]
    modifies NewRooms(store, allRoomIds)`exits
    ensures store.Valid() && Mirrors(maze, live, store, idOf) && (forall id :: id in allRoomIds <==> id in idOf.Values)
    ensures Marked(live, idOf, startRoomId, endRoomId)
  {
    hide store.Valid, store.Live, Compiled, HasExits, LinksOf, GridRoom.IsConnectedTo, MazeGrid, Reciprocal, Mirrors, Marked, NewRooms;
    ghost var links := AllLinks(maze, live);
    LinksOfAll(maze, live);
    LinksReciprocal(maze, live, links);
    FreshCompiled(store, allRoomIds, links);
    var ids;
    ids, startRoomId, endRoomId := CompileCells(maze, store, allRoomIds, live, links);
    idOf := ids;
    CompiledMirrors(maze, live, store, allRoomIds, links, idOf);
    CompiledGiven(store, allRoomIds, links, idOf);
    AllIdsUsed(store, allRoomIds, idOf);
  }

  lemma CompiledGiven(store: RoomStore, allRoomIds: seq<int>, links: Links, idOf: map<GridRoom, int>)
    requires Compiled(store, allRoomIds, links, idOf, links.Keys)
    ensures IdsGiven(store, allRoomIds, idOf)
  {
  }

  // The ids for as many rooms, or none.
  method NewIds(store: RoomStore, roomCt: nat) returns (allRoomIds: seq<int>)
    requires store.Valid()
    modifies store`rooms, store`originalRoomIdLookups, store.chunks
    ensures store.Valid() && NoDuplicates(allRoomIds)
    ensures |allRoomIds| == if roomCt == 0 || HasPlace(old(store.chunks[..]), roomCt) then roomCt else 0
    ensures allRoomIds == [] ==>
      store.rooms == old(store.rooms) && store.originalRoomIdLookups == old(store.originalRoomIdLookups) && store.chunks[..] == old(store.chunks[..])
    ensures Keeps(old(store.rooms), store.rooms) && Keeps(old(store.originalRoomIdLookups), store.originalRoomIdLookups)
    ensures forall id :: id in allRoomIds ==> id !in old(store.rooms) && id in store.rooms && fresh(store.rooms[id])
    ensures forall id :: id in allRoomIds ==> store.rooms[id].roomId == id && store.rooms[id].exits == map[]
  {
    hide store.Valid, store.Live;
    FreeChunk(store);
    var err;
    ghost var c;
    allRoomIds, err, c := store.CreateEmptyEphemeralRooms(roomCt);
    StoredUnderId(store);
  }

  lemma FreeChunk(store: RoomStore)
    requires store.Valid()
    ensures [] in store.chunks[..] <==> exists d :: 0 <= d < 100 && store.chunks[d] == []
  {
    if [] in store.chunks[..] {
      var d :| 0 <= d < |store.chunks[..]| && store.chunks[..][d] == [];
      assert store.chunks[d] == [];
    }
    if d :| 0 <= d < 100 && store.chunks[d] == [] {
      assert store.chunks[..][d] == [];
    }
  }

  // ---------- a generated maze, compiled ----------

  // h is g with every vertex v renamed to f[v].
  ghost predicate RenamedBy<V, W>(g: Graph<V>, h: Graph<W>, f: map<V, W>) {
    && f.Keys == g.Keys && f.Values == h.Keys
    && (forall a, b :: a in g && b in g && f[a] == f[b] ==> a == b)
    && (forall a, b :: a in g && b in g ==> (b in g[a] <==> f[b] in h[f[a]]))
  }

  lemma {:induction false} RenamedReach<V, W>(g: Graph<V>, h: Graph<W>, f: map<V, W>, a: V, b: V, n: nat)
    requires RenamedBy(g, h, f) && a in g && b in g
    ensures ReachIn(g, a, b, n) <==> ReachIn(h, f[a], f[b], n)
    decreases n
  {
    if n > 0 {
      if ReachIn(g, a, b, n) {
        var c :| c in g && ReachIn(g, a, c, n - 1) && b in g[c];
        RenamedReach(g, h, f, a, c, n - 1);
        assert f[c] in h && f[b] in h[f[c]];
      }
      if ReachIn(h, f[a], f[b], n) {
        var d :| d in h && ReachIn(h, f[a], d, n - 1) && f[b] in h[d];
        var c :| c in g && f[c] == d;
        RenamedReach(g, h, f, a, c, n - 1);
      }
    }
  }

  lemma RenamedDist<V, W>(g: Graph<V>, h: Graph<W>, f: map<V, W>, a: V, b: V, n: nat)
    requires RenamedBy(g, h, f) && a in g && b in g
    ensures IsDist(g, a, b, n) <==> IsDist(h, f[a], f[b], n)
  {
    forall k: nat
      ensures ReachIn(g, a, b, k) <==> ReachIn(h, f[a], f[b], k)
    {
      RenamedReach(g, h, f, a, b, k);
    }
  }

  // The rooms with these ids and their exits as a graph.
  ghost function ExitGraph(store: RoomStore, ids: set<int>): Graph<int>
    reads store, store.rooms.Values
  {
    map id | id in ids && id in store.rooms :: set e | e in store.rooms[id].exits :: store.rooms[id].exits[e].roomId
  }

  lemma ValidIsMazeGrid(m: GridMaze)
    requires m.Valid()
    ensures MazeGrid(m.rooms, m.live)
    ensures forall a: GridRoom, b: GridRoom :: a in m.live && b in m.live ==> (a.IsConnectedTo(b) <==> b in a.connections)
  {
  }

  lemma NeighbourDirection(m: GridMaze, a: GridRoom, b: GridRoom) returns (d: string)
    requires m.Valid() && a in m.live && b in a.connections
    ensures IsCompass(d) && LinkFrom(m.rooms, a, d) == b
  {
    ValidIsMazeGrid(m);
    d := if b.y < a.y then "north" else if b.y > a.y then "south" else if b.x < a.x then "west" else "east";
  }

  // An exit of a compiled room: it leads to a room connected with it in the maze, in the direction of
  // the neighbouring cell, and it can be walked back.
  lemma ExitLeadsToNeighbour(m: GridMaze, store: RoomStore, idOf: map<GridRoom, int>, a: GridRoom, d: string)
    returns (b: GridRoom)
    requires m.Valid() && Mirrors(m.rooms, m.live, store, idOf)
    requires a in m.live && idOf[a] in store.rooms && d in store.rooms[idOf[a]].exits
    ensures b in m.live && b in a.connections && b.x == a.x + Dx(d) && b.y == a.y + Dy(d)
    ensures store.rooms[idOf[a]].exits[d] == RoomExit(idOf[b], d)
    ensures idOf[b] in store.rooms && Opposite(d) in store.rooms[idOf[b]].exits
    ensures store.rooms[idOf[b]].exits[Opposite(d)] == RoomExit(idOf[a], Opposite(d))
  {
    hide m.Valid, MazeGrid, LinkFrom, GridRoom.IsConnectedTo;
    ValidIsMazeGrid(m);
    assert SameExits(m.rooms, m.live, store, idOf, a);
    b := LinkFrom(m.rooms, a, d);
    LinkPlace(m, a, d, b);
    LinkBack(m.rooms, m.live, a, d, b);
    assert SameExits(m.rooms, m.live, store, idOf, b);
  }

  lemma LinkPlace(m: GridMaze, a: GridRoom, d: string, b: GridRoom)
    requires m.Valid() && a in m.live && b in m.live && LinkFrom(m.rooms, a, d) == b
    ensures b in a.connections && b.x == a.x + Dx(d) && b.y == a.y + Dy(d)
  {
    ValidIsMazeGrid(m);
  }

  // Two compiled rooms are joined by an exit exactly when the maze connects them, so the compiled rooms
  // form the maze's graph under new names.
  lemma CompiledIsMaze(m: GridMaze, store: RoomStore, idOf: map<GridRoom, int>)
    requires m.Valid() && Mirrors(m.rooms, m.live, store, idOf)
    ensures RenamedBy(m.G(), ExitGraph(store, idOf.Values), idOf)
  {
    hide m.Valid, LinkFrom;
    var h := ExitGraph(store, idOf.Values);
    forall a: GridRoom | a in m.live
      ensures idOf[a] in store.rooms
    {
      assert SameExits(m.rooms, m.live, store, idOf, a);
    }
    forall a: GridRoom, b: GridRoom | a in m.live && b in m.live
      ensures b in m.G()[a] <==> idOf[b] in h[idOf[a]]
    {
      JoinedByExit(m, store, idOf, a, b);
    }
  }

  lemma JoinedByExit(m: GridMaze, store: RoomStore, idOf: map<GridRoom, int>, a: GridRoom, b: GridRoom)
    requires m.Valid() && Mirrors(m.rooms, m.live, store, idOf) && a in m.live && b in m.live
    ensures idOf[a] in store.rooms
    ensures b in a.connections <==> exists e :: e in store.rooms[idOf[a]].exits && store.rooms[idOf[a]].exits[e].roomId == idOf[b]
  {
    hide m.Valid, LinkFrom;
    assert SameExits(m.rooms, m.live, store, idOf, a);
    if b in a.connections {
      var d := NeighbourDirection(m, a, b);
      assert d in store.rooms[idOf[a]].exits;
    }
    if e :| e in store.rooms[idOf[a]].exits && store.rooms[idOf[a]].exits[e].roomId == idOf[b] {
      var c := ExitLeadsToNeighbour(m, store, idOf, a, e);
    }
  }

  // A generated maze, compiled: the two ids returned are those of its start and its end, and every room
  // is as many exits away from the start as its distance says.
  lemma CompiledGeneratedMaze(m: GridMaze, xMax: int, yMax: int, start: GridRoom, end: GridRoom, store: RoomStore,
                              idOf: map<GridRoom, int>, startRoomId: int, endRoomId: int)
    requires m.Generated(xMax, yMax, start, end) && Mirrors(m.rooms, m.live, store, idOf) && Marked(m.live, idOf, startRoomId, endRoomId)
    ensures start in m.live && startRoomId == idOf[start]
    ensures end in m.live && endRoomId == if xMax * yMax > 1 then idOf[end] else 0
    ensures forall r: GridRoom :: r in m.live ==>
      r.distanceFromStart >= 0 && IsDist(ExitGraph(store, idOf.Values), startRoomId, idOf[r], r.distanceFromStart)
  {
    hide IsDist, Mirrors, ConnectedFrom, m.CriticalPathFound, RenamedBy, OnGrid;
    CompiledIsMaze(m, store, idOf);
    assert start in m.live && end in m.live;
    forall r: GridRoom | r in m.live
      ensures r.distanceFromStart >= 0 && IsDist(ExitGraph(store, idOf.Values), startRoomId, idOf[r], r.distanceFromStart)
    {
      RenamedDist(m.G(), ExitGraph(store, idOf.Values), idOf, start, r, r.distanceFromStart);
    }
  }

  // The maze returned holds the rooms of the grid, so it has the same links.
  lemma SameMaze(m: GridMaze, maze: array2<GridRoom?>)
    requires m.Valid() && maze.Length0 == m.rooms.Length0 && maze.Length1 == m.rooms.Length1
    requires forall x, y :: 0 <= x < maze.Length1 && 0 <= y < maze.Length0 ==> maze[y, x] == m.rooms[y, x]
    ensures MazeGrid(maze, m.live)
    ensures forall r: GridRoom, d: string :: LinkFrom(maze, r, d) == LinkFrom(m.rooms, r, d)
  {
    hide GridRoom.IsConnectedTo;
    ValidIsMazeGrid(m);
  }

  // A maze is generated and compiled.
  method GenerateAndCompile(m: GridMaze, xMax: int, yMax: int, store: RoomStore)
    returns (panics: bool, allRoomIds: seq<int>, startRoomId: int, endRoomId: int, ghost idOf: map<GridRoom, int>)
    requires store.Valid()
    modifies m, store`rooms, store`originalRoomIdLookups, store.chunks
    ensures store.Valid()
    ensures panics <==> xMax < 1 || yMax < 1 || (xMax == 1 && yMax == 1 && (old(m.endX) != 0 || old(m.endY) != 0)) ||
                        !HasPlace(old(store.chunks[..]), |m.live|)
    ensures !panics ==> m.InGrid(m.startX, m.startY) && m.InGrid(m.endX, m.endY)
    ensures !panics ==> m.rooms[m.startY, m.startX] != null && m.rooms[m.endY, m.endX] != null
    ensures !panics ==> Compiles(m, xMax, yMax, m.rooms[m.startY, m.startX], m.rooms[m.endY, m.endX], store, idOf, startRoomId, endRoomId)
    ensures !panics ==> |allRoomIds| == |m.live| && forall id :: id in allRoomIds <==> id in idOf.Values
  {
    hide m.Generated, m.CutFrom, m.Valid, m.G, Mirrors, IsDist, HasPlace, store.Valid, Compiles, Graphs.Edges, Survives;
    allRoomIds, startRoomId, endRoomId, idOf := [], 0, 0, map[];
    var failed, maze, _, _, _ := m.Generate2D(xMax, yMax);
    panics := failed;
    if !failed {
      ghost var start: GridRoom, end: GridRoom := m.rooms[m.startY, m.startX], m.rooms[m.endY, m.endX];
      panics, allRoomIds, startRoomId, endRoomId, idOf := CompileGenerated(m, maze, xMax, yMax, store, start, end);
    }
  }

  method CompileGenerated(m: GridMaze, maze: array2<GridRoom?>, xMax: int, yMax: int, store: RoomStore,
                          ghost start: GridRoom, ghost end: GridRoom)
    returns (panics: bool, allRoomIds: seq<int>, startRoomId: int, endRoomId: int, ghost idOf: map<GridRoom, int>)
    requires store.Valid() && m.Generated(xMax, yMax, start, end)
    requires maze.Length0 == yMax && maze.Length1 == xMax
    requires forall x, y :: 0 <= x < xMax && 0 <= y < yMax ==> maze[y, x] == m.rooms[y, x]
    modifies store`rooms, store`originalRoomIdLookups, store.chunks
    ensures store.Valid() && (panics <==> !HasPlace(old(store.chunks[..]), |m.live|))
    ensures !panics ==> Compiles(m, xMax, yMax, start, end, store, idOf, startRoomId, endRoomId)
    ensures !panics ==> |allRoomIds| == |m.live| && forall id :: id in allRoomIds <==> id in idOf.Values
  {
    hide m.Generated, m.Valid, Mirrors, OnCompass, Marked, IsDist, HasPlace, store.Valid, MazeGrid, LinkFrom, Compiles, Keeps;
    GeneratedMaze(m, xMax, yMax, start, end);
    SameMaze(m, maze);
    panics, allRoomIds, startRoomId, endRoomId, idOf := CreateEphemeralMaze2D(maze, store, m.live);
    if !panics {
      SameMirror(m, maze, store, idOf);
      GeneratedCompiles(m, xMax, yMax, start, end, store, idOf, startRoomId, endRoomId);
    }
  }

  // The compiled rooms are the generated maze: they have its ends, its connections and its distances.
  ghost predicate Compiles(m: GridMaze, xMax: int, yMax: int, start: GridRoom, end: GridRoom, store: RoomStore,
                           idOf: map<GridRoom, int>, startRoomId: int, endRoomId: int)
    reads m, m.rooms, m.live, m.criticalPath, store, store.rooms.Values
  {
    && m.Generated(xMax, yMax, start, end) && Mirrors(m.rooms, m.live, store, idOf)
    && start in m.live && startRoomId == idOf[start]
    && end in m.live && endRoomId == (if xMax * yMax > 1 then idOf[end] else 0)
    && forall r: GridRoom :: r in m.live ==>
         r.distanceFromStart >= 0 && IsDist(ExitGraph(store, idOf.Values), startRoomId, idOf[r], r.distanceFromStart)
  }

  lemma GeneratedCompiles(m: GridMaze, xMax: int, yMax: int, start: GridRoom, end: GridRoom, store: RoomStore,
                          idOf: map<GridRoom, int>, startRoomId: int, endRoomId: int)
    requires m.Generated(xMax, yMax, start, end) && Mirrors(m.rooms, m.live, store, idOf) && Marked(m.live, idOf, startRoomId, endRoomId)
    ensures Compiles(m, xMax, yMax, start, end, store, idOf, startRoomId, endRoomId)
  {
    hide m.Generated, Marked, IsDist;
    CompiledGeneratedMaze(m, xMax, yMax, start, end, store, idOf, startRoomId, endRoomId);
  }

  lemma GeneratedMaze(m: GridMaze, xMax: int, yMax: int, start: GridRoom, end: GridRoom)
    requires m.Generated(xMax, yMax, start, end)
    ensures m.Valid() && m.rooms.Length0 == yMax >= 1 && m.rooms.Length1 == xMax && start in m.live
  {
  }

  lemma SameMirror(m: GridMaze, maze: array2<GridRoom?>, store: RoomStore, idOf: map<GridRoom, int>)
    requires m.Valid() && maze.Length0 == m.rooms.Length0 && maze.Length1 == m.rooms.Length1
    requires forall x, y :: 0 <= x < maze.Length1 && 0 <= y < maze.Length0 ==> maze[y, x] == m.rooms[y, x]
    requires Mirrors(maze, m.live, store, idOf)
    ensures Mirrors(m.rooms, m.live, store, idOf)
  {
    hide LinkFrom, MazeGrid, m.Valid;
    SameMaze(m, maze);
    forall a: GridRoom | a in m.live
      ensures SameExits(m.rooms, m.live, store, idOf, a)
    {
      assert SameExits(maze, m.live, store, idOf, a);
    }
  }
}
