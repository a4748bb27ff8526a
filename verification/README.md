# A verified model of GoMud's algorithms and state machines

GoMud is a MUD server. Most of it is commands, text and files, but some of it is algorithms and stateful
objects whose correctness cannot be seen from one function. This project models those parts in Dafny and
proves what they promise, for every input, every iteration order, every random draw and every run:

| files | what they model |
|---|---|
| `Common.dfy`, `Graphs.dfy` | sequences without duplicates; reachability, distances, breadth-first search and vertex removal, shared by the maze, the crawler and the path search |
| `GridMaze.dfy` | the maze generator: spanning tree, start and end, distances, critical path, extra connections, room removal |
| `MazeRooms.dfy` | a maze compiled to ephemeral rooms with exits |
| `Rooms.dfy` | the allocator of ephemeral rooms |
| `Mapper.dfy` | the map crawler and its coordinate grid |
| `HeapOrder.dfy`, `OpenSet.dfy`, `MapPath.dfy`, `GetPath.dfy` | the A\* path search with its indexed heap, and cached routes through several rooms |
| `MapRoutes.dfy` | the path search run on what the crawler found |
| `Events.dfy`, `World.dfy` | the event queue and the event loop with one delayed input per actor and pass |
| `ConfigTree.dfy`, `Configs.dfy` | flattening configuration maps to dotted keys and back |
| `Markdown.dfy` | the inline markdown parser and the printer that undoes it |
| `Buffs.dfy` | a character's buffs and the two lookups into them |
| `Parties.dfy` | the party registry |
| `Prompts.dfy`, `Login.dfy` | the multi-step prompt handler and the login dialog |

Loops and objects of the source are methods and classes here. Each is proved against a function, a predicate
or a graph property, and the promises are proved of those. A random draw is an arbitrary choice (`:|` or
`*`), and a Go map is walked in arbitrary order.

## Where the code does something else than expected

- `Trigger` is commented to trigger only the buff ids passed to it. Its `continue` only continues the inner
  loop over those ids, so they have no effect (`internal/buffs/buffs.go:216-224`). `Buffs.Buffs.Trigger` says that result
  and buffs are as commented if and only if every unexpired buff with a spec is among those named, or none is named.
  `Buffs.TriggerIgnoresIds` is a call that returns a buff not named, `Buffs.TriggerAgesOthers` one that only ages it.
- `AddBuff` looks up a spec by the absolute value of the id but indexes the buff under the id as passed.
  `Buffs.AddedLookups` says exactly when the lookups stay right; `Buffs.NegativeIdAdded` is a call that leaves them wrong.
  The one caller in the program takes the absolute value first (`internal/characters/character.go:1166`).
- Adding a buff again refills its triggers but not its round counter, so it outlives what `GetDurations` reports
  (`Buffs.RefreshedBuff`) if and only if an interval or more has passed (`Buffs.RefreshedOnTime`); `Buffs.RefreshedLate`
  is a case.
- A buff whose spec counts as many triggers as the mark for unlimited ones never ends (`Buffs.EndsBelowTheMark`).
- `HasFlag` with `expire` on a list that holds an unexpired buff 0 with the flag cuts the list while ranging over it: the
  next buff is passed over, and one arrangement panics. `Buffs.Buffs.FlagOutcome` is the exact outcome;
  `Buffs.HasFlagPanics` is a list that panics.
- The A\* heuristic is admissible if and only if every exit between crawled rooms covers at most one grid unit
  (`MapPath.AdmissibleMeansUnitExits`); `MapPath.WideExitIsOverestimated` is a map where it is not. The length found is
  then within the widest exit's factor of the best.
- The comment in `FindAdjacentRoom` calls the second result the number of rooms away. It is the absolute value of a
  coordinate of the room found (`internal/mapper/mapper.go:492-501`). That counts the steps if and only if the first
  coordinate in use starts at 0 and moves by one (`Mapper.DistanceIsSteps`); from (x, 0, 0) the room next door to the
  east is reported x + 1 away (`Mapper.NextDoorIsFar`).
- `Start` takes 0 for "no lowest room yet", so taking room 0 off the queue restarts the comparison. It finds the least id met
  if and only if 0 is not met, or a negative id is, or 0 comes last (`Mapper.LowestIsLeast`); in `Mapper.OriginIsNotLeast`
  0 and 7 are met and 7 becomes the origin.
- Loading room 0 loads the start room (`internal/rooms/save_and_load.go:80-85`), whose node goes by its own id, so `Start`
  crawls that room each time 0 is met. The crawl ends if and only if it does not reach a start room with an exit to room 0
  (`Mapper.Mapper.Start` and `Mapper.Mapper.KeepsCrawling`; `Mapper.LoopIsEndless` is such a room). If it ends, the start
  room, once 0 was met, is drawn where an exit to room 0 leads; `Mapper.StartRoomMoves` is a map that contradicts its exits. Copies
  of rooms have such exits (`Rooms.CopiedTarget`). Paths do not follow them: `MapRoutes.CrawlAndFind` says exactly when
  there is one, and in `MapRoutes.NoPathThroughZero` the crawl reaches a room that no path does.
- `Generate2D` fails for a grid without cells, and for a single room when an earlier maze of the same generator left its
  end elsewhere (`GridMaze.GridMaze.Generate2D` states exactly when, `GridMaze.Regenerate` runs it twice).
  `CreateEphemeralMaze2D` ignores the allocator's error and fails if and only if there are no rows, or there are rooms and no
  chunk can take them (`MazeRooms.CreateEphemeralMaze2D`).
- A route that fails is first reported as not found, and on a later cache hit with the error it was cached under (`GetPath.LegFor`).
- `CreateEphemeralRoomIds` indexes an empty list if and only if no requested room loads; the model calls this outcome
  `NothingCreated`, and `Rooms.NothingLoads` is such a call.
- Flattening and unflattening are inverse only under conditions that the code does not check; both are given as an
  if-and-only-if (`ConfigTree.FlattenUndoesUnflatten`, `ConfigTree.UnflattenUndoesFlatten`), with maps that fail them
  (`ConfigTree.PrefixKeyLost`, `ConfigTree.DottedKeySplit`). `SetVal` is subject to
  the first of them, whatever overrides it starts from (`ConfigTree.SetValChangesOneKey`).
- `Leave` called for somebody who is not a member breaks the registry except in the cases of `Parties.Registry.MayLeave`;
  `Parties.InvitedLeaves` is a registry broken by somebody invited.
- A disconnect leaves the index 99 beyond the step that failed (`Prompts.DisconnectedAt`). That is beyond the last step of
  every dialog of n steps if and only if n is at most 99 (`Prompts.DisconnectedIsOutside`); `Prompts.StubbornDisconnects`
  is a dialog that ends at index 99. The login dialog has nine steps.
- A login kicks the connected user before the account is loaded and the password compared again, so a refused login may
  have kicked; but the password had been right at some submission before (`Login.KickedAfterPassword`). It crashes if and
  only if the user to be kicked is known but no longer connected (`Login.CrashesWhenGone`, with `Login.KickedHasLeft` as a case).

## Model

| member | source | states |
|---|---|---|
| Graphs.RemoveKeepsConnected | internal/procedural/gridmaze.go:322-351 | the articulation test suffices: in a symmetric connected graph a vertex whose neighbours reach each other without it can be deleted |
| Graphs.ConnectedIsBypassed | internal/procedural/gridmaze.go:322-351 | the articulation test is necessary: if the rest stays connected, the neighbours reach each other without the vertex |
| Graphs.WalkAround | internal/procedural/gridmaze.go:471-498 | every walk of the graph can be led around a bypassed vertex |
| Graphs.BfsVisit | internal/procedural/gridmaze.go:396-409 | labelling an unseen neighbour one further than the current vertex keeps the search's invariant: labels along the queue never decrease |
| Graphs.BfsFinished | internal/procedural/gridmaze.go:386-410 | when the queue is empty the labels are exactly the distances of the reachable vertices, and nothing else is labelled |
| Graphs.BfsFront | internal/procedural/gridmaze.go:427-451 | the vertex at the front of the queue already carries its exact distance, so a search may stop there |
| GridMaze.JoinTrees | internal/procedural/gridmaze.go:245-264 | hanging a tree under a new edge gives a tree: connected, one edge fewer than vertices, nothing else changed |
| GridMaze.AllLooked | internal/procedural/gridmaze.go:246-255 | once the four shuffled directions are tried, every live neighbour has been seen, whatever the order |
| GridMaze.GridRoom.AddConnection | internal/procedural/gridmaze.go:64-70 | both rooms get the other at the end of their connections, or nothing changes when they are connected |
| GridMaze.GridRoom.CutConnection | internal/procedural/gridmaze.go:273-290 | the first occurrence of the room is cut out of the connections |
| GridMaze.GridMaze.ShuffleDirections | internal/procedural/gridmaze.go:266-271 | the shuffled array is a permutation of the directions, for every draw |
| GridMaze.GridMaze.Backtrack | internal/procedural/gridmaze.go:245-264 | the recursive search ends, and adds a tree over exactly the cells it newly visits |
| GridMaze.GridMaze.GenerateMazeRecursiveBacktracking | internal/procedural/gridmaze.go:231-243 | the grid becomes a spanning tree of all cells: connected, symmetric, xMax * yMax - 1 edges |
| GridMaze.GridMaze.SelectWeightedRandom | internal/procedural/gridmaze.go:208-229 | returns the candidate in whose share of the total weight the draw lies, so each is returned by as many draws as its weight; the fallback after the loop is never reached |
| GridMaze.DrawSelectsOne | internal/procedural/gridmaze.go:218-225 | the shares do not overlap: no draw selects two candidates |
| GridMaze.GridMaze.WeightedCandidates | internal/procedural/gridmaze.go:179-193 | exactly the cells other than the start are candidates, each weighted by one more than its Manhattan distance from the start |
| GridMaze.GridMaze.SetStartAndEnd | internal/procedural/gridmaze.go:154-206 | on any grid, empty cells included: with two rooms or more, start and end are different rooms, with one room there is only a start, without rooms neither moves; exactly those rooms are flagged |
| GridMaze.GridMaze.CalculateDistancesFromStart | internal/procedural/gridmaze.go:386-410 | every room reachable from the start is given its exact graph distance |
| GridMaze.GridMaze.ShortestPath | internal/procedural/gridmaze.go:417-451 | the search returns a shortest walk from start to end without repeated rooms, and none exactly if there is no walk |
| GridMaze.GridMaze.FindCriticalPath | internal/procedural/gridmaze.go:412-452 | panics if and only if the remembered end lies outside the grid; else the critical path is a shortest walk from start to end, its rooms numbered from 1, or unchanged without one; the step of every other room is left as it was |
| GridMaze.GridMaze.TryConnect | internal/procedural/gridmaze.go:518-531 | two rooms are connected exactly if they were not and both had less than three connections; the graph then is the old one with the edge between these two added, else the old one |
| GridMaze.GridMaze.AddAdditionalConnections | internal/procedural/gridmaze.go:501-532 | exactly a tenth as many attempts as cells, each at a room drawn: it joins the room to a neighbouring cell it can be joined to if there is one, and changes nothing else; a room that gets a connection ends with at most three |
| GridMaze.GridMaze.JoinAt | internal/procedural/gridmaze.go:509-531 | one attempt: the room drawn is joined to a neighbour it was not connected to, both having had less than three connections, if and only if there is one |
| GridMaze.GrowsEdges | internal/procedural/gridmaze.go:504-531 | any sequence of attempts keeps the rooms and adds at most one connection each |
| GridMaze.GridMaze.RemoveRoom | internal/procedural/gridmaze.go:273-290 | the room leaves the grid and its vertex leaves the graph; all other cells and edges stay |
| GridMaze.GridMaze.AreConnectedWithoutRoom | internal/procedural/gridmaze.go:471-498 | answers true if and only if the second room can be reached from the first in the graph without the excluded one |
| GridMaze.GridMaze.CanRemoveWithoutDisconnectingPath | internal/procedural/gridmaze.go:322-351 | answers true if and only if the room exists, is off the critical path and its neighbours reach each other without it |
| GridMaze.GridMaze.RemovalKeepsPath | internal/procedural/gridmaze.go:292-320 | removing a bypassed room off the path keeps every room reachable from the start and the path a walk |
| GridMaze.GridMaze.RemoveRoomsProtectingPath | internal/procedural/gridmaze.go:292-320 | for every sequence of draws, column by column: each room removed was off the path and bypassed in what was left at its turn; the rooms left are all reachable from the start and the critical path survives |
| GridMaze.CutsLoops | internal/procedural/gridmaze.go:292-320 | removing bypassed rooms one after the other never raises the number of independent loops |
| GridMaze.GridMaze.RemoveOrphanedRooms | internal/procedural/gridmaze.go:353-384 | exactly the rooms reachable from the start survive, with the connections they had |
| GridMaze.GridMaze.NoOrphans | internal/procedural/gridmaze.go:353-384 | in a maze connected from the start, removing orphans removes nothing |
| GridMaze.GridMaze.BuildTree | internal/procedural/gridmaze.go:88-117 | the phases up to the first critical path panic if and only if there is one cell and the end is remembered elsewhere; else a spanning tree of all cells with its start, end and a shortest path |
| GridMaze.PhasesEdges | internal/procedural/gridmaze.go:118-124 | from the tree to the maze: at most as many independent loops as attempts |
| GridMaze.GridMaze.Generate2D | internal/procedural/gridmaze.go:88-140 | exactly when it fails; else, for every draw: one connected symmetric grid graph with start and end in it and at most a tenth as many independent loops as cells, exact distances in every room, a shortest critical path; the maze is what that many attempts at connections and then the removals make of a spanning tree, and its shortest path from start to end, kept whole, is no shorter than the final one; steps are 0 off both paths |
| GridMaze.GridMaze.MazeInCells | internal/procedural/gridmaze.go:88-140 | a generated maze in coordinates: every room stands in its own cell, every connection leads one cell up, down, left or right and back, only the start is at distance 0, and any other room has a neighbour one nearer and none more than one apart |
| GridMaze.Regenerate | internal/procedural/gridmaze.go:88-140 | a generator used again for a single room panics if and only if the first maze's end was not in its corner |
| MazeRooms.CreateEphemeralMaze2D | internal/procedural/rooms.go:8-150 | fails, having changed nothing, if and only if there are no rows or the rooms fit no chunk; else ids and maze rooms match one to one; a room has an exit north, east, south or west exactly if the maze connects it to the room in row y - 1, column x + 1, row y + 1 or column x - 1, leading to that room's id, and no exit under another name; the start and end ids are those of the flagged rooms, and all other rooms and lookups are kept |
| MazeRooms.MirrorsOnCompass | internal/procedural/rooms.go:58-143 | exits that mirror the links are, in coordinates, the four compass exits and no others |
| MazeRooms.Connect | internal/procedural/rooms.go:58-78 | a pair of exits adds a link and the link back and keeps every exit written before |
| MazeRooms.LinkBack | internal/procedural/rooms.go:58-143 | a link seen from its other end leads back in the opposite direction |
| MazeRooms.ExitLeadsToNeighbour | internal/procedural/rooms.go:69-76 | every exit leads to a room connected in the maze, in the direction of the neighbouring cell, and has its reciprocal |
| MazeRooms.JoinedByExit | internal/procedural/rooms.go:58-143 | there is an exit from one room to another if and only if the maze connects them |
| MazeRooms.RenamedReach | internal/procedural/rooms.go:8-150 | a one-to-one renaming of a graph keeps, in both directions, which rooms are how many steps apart |
| MazeRooms.CompiledIsMaze | internal/procedural/rooms.go:8-150 | the exits between the compiled rooms form the graph of the maze under new names |
| MazeRooms.CompiledGeneratedMaze | internal/procedural/rooms.go:8-150 | for a generated maze the ids returned are those of its start and end, and each room is as many exits away from the start as its distance says |
| MazeRooms.GenerateAndCompile | internal/procedural/rooms.go:8-150 | a maze generated and compiled: exactly when either fails, and else the compiled rooms have its ends, connections and distances |
| Rooms.ChunkOfId | internal/rooms/ephemeral.go:218 | the division recovers chunk c from an id if and only if the id is one of the thousand from 1000000000 + 1000c on |
| Rooms.RoomStore.GetNextAvailableChunk | internal/rooms/ephemeral.go:44-53 | the first empty chunk, or an error exactly if there is none |
| Rooms.RoomStore.CreateEmptyEphemeralRooms | internal/rooms/ephemeral.go:69-112 | the error for each refused quantity, changing nothing; else that many new ids of an empty chunk, none of them live before, each for a fresh empty room; all other rooms, chunks and lookups are kept |
| Rooms.RoomStore.CreateEphemeralRoomIds | internal/rooms/ephemeral.go:114-192 | the error for each refused request, changing nothing; else the first empty chunk takes one copy per requested room that is not 0, not ephemeral and has a template, with its exits renamed, and holds exactly the ids of the copies; all other rooms, chunks and lookups are kept |
| Rooms.CopyIds | internal/rooms/ephemeral.go:140-165 | the ids issued are the values of the returned map, and none are issued exactly if no requested room loads |
| Rooms.CopiedTarget | internal/rooms/ephemeral.go:167-181 | an exit of a copy leads to the copy of its target, to room 0 if that was requested but does not load, and else where it always led |
| Rooms.CopiesMirrorOriginals | internal/rooms/ephemeral.go:140-181 | an exit of a copy leads to a copy exactly when the original exit leads to its original, no more and no less, if and only if no exit out of the requested rooms leads to the id of a copy |
| Rooms.RequestedMirrored | internal/rooms/ephemeral.go:167-181 | every exit within the requested rooms is mirrored if and only if the rooms led to load |
| Rooms.NothingLoads | internal/rooms/ephemeral.go:185-189 | a request without a loadable room |
| Rooms.RoomStore.TryEphemeralCleanup | internal/rooms/ephemeral.go:216-262 | frees the whole chunk of an id with its rooms and lookups, or nothing while a player is in any of its rooms |
| Rooms.RoomStore.GetOriginalRoom | internal/rooms/ephemeral.go:284-289 | ordinary ids map to themselves, live ephemeral ids to what they were made from, others to 0 |
| Mapper.PlacedStep | internal/mapper/mapper.go:279-282 | following one exit from a room placed by a walk places its target, by a walk one longer, at the sum of the directions |
| Mapper.PlacedByExit | internal/mapper/mapper.go:159-165 | the last exit of a walk that places a room moves, in every coordinate, by the offset of its MapDirection if that is known, else of its name |
| Mapper.CrawlExit | internal/mapper/mapper.go:274-304 | queueing an exit of a room just discovered keeps the crawl's invariant: it runs breadth first, and every room seen or queued for the first time is placed by a shortest walk from the root |
| Mapper.CrawlKnown | internal/mapper/mapper.go:274-304 | following an exit of a room seen before, as when the start room is crawled again, discovers nothing |
| Mapper.CrawlComplete | internal/mapper/mapper.go:255-308 | when the queue is empty, the rooms seen are exactly those reachable from the root by exits with a direction, each placed by a shortest walk |
| Mapper.LowestIsLeast | internal/mapper/mapper.go:246-253 | the comparison over the ids taken off the queue finds the least one if and only if 0 is not among them, or a negative id is, or 0 comes last |
| Mapper.CourseVisit | internal/mapper/mapper.go:255-308 | crawling a room keeps: which ids were taken, that every node but the start room's stays where its room was discovered, and that the start room's is where an exit to room 0 leads once 0 was met |
| Mapper.Mapper.Initialize | internal/mapper/mapper.go:173-191 | the empty grid has exactly the extent of the bounds |
| Mapper.Mapper.SettleAll | internal/mapper/mapper.go:193-327 | every node lands inside the grid and every taken cell holds a crawled room with the cell's coordinates |
| Mapper.Mapper.Start | internal/mapper/mapper.go:238-328 | unless the start room is reached and has an exit to room 0, the crawl ends; it finds exactly the rooms reachable from the root, and of their exits keeps exactly those with a known MapDirection, which then decides, or else a known name; each room lies at coordinates that a shortest walk from the root adds up to - only the start room, once 0 was met, where an exit to room 0 leads - shifted so that the room the comparison of ids ends with, if crawled, is the origin; the grid is the least that holds every place at which a room was queued |
| Mapper.NodeExitsDirected | internal/mapper/mapper.go:889-911 | an exit is kept if and only if its MapDirection or its name is known, and leads where the MapDirection says if that is known, whatever the name |
| Mapper.DrawnTwoNorth | internal/mapper/mapper.go:902-908 | a crawl over an exit north marked north-x2, after which the room it leads to lies two cells north |
| Mapper.BoxWiden | internal/mapper/mapper.go:281-302 | widening the bounds by one place keeps them the least that hold all places met |
| Mapper.Mapper.KeepsCrawling | internal/mapper/mapper.go:248-308 | if the start room is reached and has an exit to room 0 the crawl never ends: after any number of turns there is another |
| Mapper.LoopIsEndless | internal/mapper/mapper.go:248-308 | a world of one room whose crawl never ends |
| Mapper.OriginIsNotLeast | internal/mapper/mapper.go:246-253 | a crawl that meets 0 and 7 and makes room 7 the origin |
| Mapper.StartRoomMoves | internal/mapper/mapper.go:255-308 | a crawl after which the start room lies to the east of the room that its exit to the east leads to |
| Mapper.Mapper.GetCoordinates | internal/mapper/mapper.go:369-378 | the recorded position of a crawled room, an error for any other |
| Mapper.Mapper.GetRoomId | internal/mapper/mapper.go:335-367 | out of bounds exactly outside the grid; a room found has these very coordinates, and one is found if and only if some crawled room has them |
| Mapper.Mapper.ScanFrom | internal/mapper/mapper.go:465-504 | the scan always ends: at the first room in the direction, whose coordinates give the distance, at the first step more than the limit if one is passed, or out of the grid |
| Mapper.DistanceIsSteps | internal/mapper/mapper.go:492-501 | the distance reported after k steps is k, for every k, if and only if the first coordinate in use starts at 0 and moves by one |
| Mapper.NextDoorIsFar | internal/mapper/mapper.go:492-501 | a room next door that is reported x + 1 rooms away, for every x |
| HeapOrder.UpStep | internal/mapper/mapper.path.go:65-88 | swapping a too small item with its parent moves the one violation of heap order up |
| HeapOrder.DownStep | internal/mapper/mapper.path.go:65-88 | swapping a too large item with its smaller child moves the one violation of heap order down |
| HeapOrder.RootIsLeast | internal/mapper/mapper.path.go:66 | in heap order no item is less than the first |
| OpenSets.OpenSet.Push | internal/mapper/mapper.path.go:72-76 | adds the room with its score; heap order and the index of every item are kept |
| OpenSets.OpenSet.Pop | internal/mapper/mapper.path.go:77-84 | takes a room whose score is least; heap order and indexes are kept |
| OpenSets.OpenSet.Update | internal/mapper/mapper.path.go:85-88 | changes one room's score, up or down; heap order and indexes are kept |
| MapPath.Relax | internal/mapper/mapper.path.go:167-190 | an improved score keeps the invariant of the search: predecessors lead back to the start with strictly dropping scores |
| MapPath.Improves | internal/mapper/mapper.path.go:167-190 | every improvement makes the termination measure smaller, re-opened rooms included |
| MapPath.DistanceGrows | internal/mapper/mapper.path.go:90-99 | the heuristic is the number of unit moves between two positions: 0 exactly for equal ones, and n units further along one axis add n |
| MapPath.Exhausted | internal/mapper/mapper.path.go:135-193 | with nothing left open, every room reachable from the start has been scored |
| MapPath.HeuristicBound | internal/mapper/mapper.path.go:90-99 | if exits span at most w units the heuristic is at most w times the number of steps left |
| MapPath.GoalBound | internal/mapper/mapper.path.go:135-140 | when the goal is taken off the heap its score is at most w times the length of any walk to it |
| MapPath.ExpandNeighbours | internal/mapper/mapper.path.go:167-190 | the neighbour loop only improves scores, keeps the invariant, and leaves the current room expanded |
| MapPath.Backtrace | internal/mapper/mapper.path.go:141-150 | following the predecessors from the goal ends at the start, meets no room twice and takes no more steps than the goal's score |
| MapPath.FindPath | internal/mapper/mapper.path.go:102-194 | always ends; an error for equal or unknown rooms; not found if and only if the goal cannot be reached; else a walk of existing exits without repeated rooms, only the last step flagged, within factor w of every walk when exits span at most w |
| MapPath.UnitExitsGiveShortest | internal/mapper/mapper.path.go:93-194 | with exits of at most one unit the path found is a shortest one |
| MapPath.AdmissibleMeansUnitExits | internal/mapper/mapper.path.go:90-99 | the heuristic never overestimates the steps left, between any two rooms, if and only if every exit between crawled rooms covers at most one grid unit |
| MapPath.WideExitIsOverestimated | internal/mapper/mapper.path.go:90-99 | a map of two rooms, joined by an exit two units wide, where it does overestimate |
| GetPath.RouteExtends | internal/mapper/mapper.path.go:229-256 | a leg from where the route stands extends the route by one stop |
| GetPath.RouteFollows | internal/mapper/mapper.path.go:229-256 | a route is one contiguous walk whose flagged steps are exactly its stops |
| GetPath.UnitExitsGiveShortestRoute | internal/mapper/mapper.path.go:229-256 | with unit exits a route is as long as the distances between its stops together: every leg is a shortest one |
| GetPath.LegFor | internal/mapper/mapper.path.go:226-256 | a leg is returned, from the cache or searched, if and only if one exists; the cache stays sound |
| GetPath.PathCache.Add | internal/mapper/mapper.path.go:242-253 | the entry is there, any others may go, none changes; a cache of true entries stays one |
| GetPath.GetPath | internal/mapper/mapper.path.go:196-267 | for every cache content and eviction: succeeds if and only if there is something to walk and every leg exists; the result is a route through the requested rooms in order, each leg within the widest exit's factor of the shortest; nothing requested, or a leg that does not exist, is reported as not found |
| GetPath.StopsHaveNoTwins | internal/mapper/mapper.path.go:218-224 | the stops after the start have no two equal neighbours |
| GetPath.StopsWithoutTwins | internal/mapper/mapper.path.go:218-224 | if the rooms requested after the start have none, the stops are all of them in order |
| GetPath.StopsDropTwin | internal/mapper/mapper.path.go:218-224 | a room requested twice in a row changes nothing against once |
| MapRoutes.SameDistance | internal/mapper/mapper.go:238-328 | two crawled rooms are as far apart in the crawl as in the world, by exits with a direction that name a room by its own id |
| MapRoutes.CrawlAndFind | internal/mapper/mapper.path.go:102-194 | a path search on what a crawl found: a path comes back if and only if the world has one that uses no exit to room 0, and with unit exits it is a shortest one of these |
| MapRoutes.NoPathThroughZero | internal/mapper/mapper.path.go:102-194 | two crawled rooms, the second reached from the first through an exit to room 0, without a path |
| Events.LeastIsUnique | internal/events/events.go:65-70 | the order of events is total: exactly one waiting event is least |
| Events.EnqueueValid | internal/events/events.go:90-125 | enqueueing keeps the queue valid: orders distinct, uniqueMap exactly the unique ids waiting, each once |
| Events.PoppedValid | internal/events/events.go:200-212 | taking an event off releases its unique id and keeps the queue valid |
| Events.EnqueueAllKeeps | internal/events/events.go:187-192 | re-adding events removes none, and every new one is younger than all that were there |
| Events.PutBackReturns | internal/events/events.go:187-192 | each event put back waits again after the next merge, at its priority and younger than all before, unless an event with its unique id waits |
| Events.EnqueueAllOrders | internal/events/events.go:127-157 | of two events without unique id, added one before the other, the first has the lower order |
| Events.EventQueue.Up | internal/events/events.go:61-88 | sifting the last event up restores heap order and keeps the same events |
| Events.EventQueue.Down | internal/events/events.go:61-88 | sifting the first event down among the first n restores their heap order and keeps the same events |
| Events.FirstIsLeast | internal/events/events.go:61-88 | the first event of the heap slice is the least by priority and then order |
| Events.EventQueue.AddToQueue | internal/events/events.go:90-125 | the queue becomes the specified one: unchanged for a waiting unique id, else with one younger event sifted into the heap slice |
| Events.EventQueue.MergeRequeues | internal/events/events.go:187-192 | all events put back re-enter in order, none stays put back |
| Events.EventQueue.Pop | internal/events/events.go:203-212 | takes the least event by priority and then order off the heap slice and releases its unique id |
| World.StepSound | internal/events/events.go:176-233 | every step of the system keeps: no event waits twice, none dispatched in this pass waits in the heap, no actor has run two delayed inputs in it |
| World.NothingYet | world.go:1080-1092 | the system starts with both invariants |
| World.OnceInEveryRun | world.go:79-154 | in every state of every run, each event was dispatched at most once in the pass and each actor ran at most one delayed input |
| World.InOrderInEveryRun | world.go:89-119 | once one input of a mob is ahead of another at the same priority it stays ahead until it has run, however often both are put back |
| World.MobInputsKeepOrder | world.go:89-119 | from both inputs waiting in the heap, no run executes the second before the first |
| World.AheadDispatch | internal/events/events.go:200-228 | a dispatch keeps the first input ahead of the second or runs the first |
| World.DispatchRuns | world.go:89-175 | the event dispatched runs if and only if it is a mob input that is due whose mob is not tracked, or a user input without delay, or one that is due whose user is not tracked; an input that does not run is put back at its priority |
| World.DispatchTracks | world.go:89-175 | a mob is tracked as soon as a delayed input of it is dispatched, a user as soon as a delayed input of his runs |
| World.DispatchBlocks | world.go:89-175 | a user is ignored once a blocking input of his has to wait, from the first such turn on, until an unblocking one runs |
| World.StepsOfRun | internal/events/events.go:176-233 | in every run, an input runs only when dispatched, exactly if it may, and never before its ready turn; nothing of a lower priority number, or older at the same, waits meanwhile |
| World.IgnoredInEveryRun | world.go:89-175 | in every state of every run, a user is ignored if and only if a blocking input of his has had to wait and no unblocking one has run since |
| World.TrackedInEveryRun | world.go:1080-1092 | in every state of every run, a mob is tracked if and only if a delayed input of it was dispatched in the current pass, a user if and only if a delayed input of his has run in it |
| World.OneWaitsPerId | internal/events/events.go:100-108 | in no state of a run do two events with the same unique id wait |
| World.World.HandleInputEvents | world.go:79-154 | a mob's input runs if and only if it is due and the mob is not tracked, a user's if and only if it has no delay, or is due and the user is not tracked; what does not run is put back; trackers and ignored users change as the input rule says |
| World.World.DispatchNext | internal/events/events.go:203-223 | one turn of the loop is one dispatch step of the system, with whatever events the handlers add |
| World.World.EventLoop | world.go:1080-1092 | a pass is a run of the system; when it is finished the heap is empty and the trackers are cleared |
| ConfigTree.SplitJoin | internal/configs/overrides.go:9 | splitting a joined path of dot-free parts gives the path back |
| ConfigTree.JoinSplit | internal/configs/overrides.go:9 | joining the parts of a key gives the key back |
| ConfigTree.InsertLeaves | internal/configs/overrides.go:9-32 | writing one key leaves exactly the leaves that neither lie above nor below it, and adds its own |
| ConfigTree.InsertAllLeaves | internal/configs/overrides.go:6-35 | in any order of writing, every leaf stems from a key, and each key becomes a leaf if none is a prefix of another |
| ConfigTree.LeavesBelow | internal/configs/configs.go:456-483 | the leaves below a key are those of the nested map there, and of a map[any]any those under its string keys, all others being lost |
| ConfigTree.AnyMapReadsAsMap | internal/configs/configs.go:470-477 | a map[any]any flattens as the map[string]any of its entries under string keys, in every iteration order |
| ConfigTree.FlattenUndoesUnflatten | internal/configs/overrides.go:6-35 | flattening an unflattened map gives it back if and only if its keys can be held together: none is a dotted prefix of another and none begins with a dot; in every iteration order |
| ConfigTree.PrefixKeyLost | internal/configs/overrides.go:6-35 | a flat map that is not given back: a value above another one is lost in every order |
| ConfigTree.SameLeavesEqual | internal/configs/configs.go:449-483 | nested maps without empty submaps are determined by their leaves |
| ConfigTree.UnflattenUndoesFlatten | internal/configs/configs.go:449-483 | unflattening a flattened map gives it back if and only if keys have no dots, no nested map is empty or keyed by any, and none hides under the empty key at the top |
| ConfigTree.DottedKeySplit | internal/configs/configs.go:449-483 | a nested map that is not given back: a key with a dot comes back as two |
| ConfigTree.SetValChangesOneKey | internal/configs/configs.go:297-307 | flatten any nested overrides, write one key, unflatten: read back exactly that key has changed, if and only if the flat keys and the new one can be held together |
| ConfigTree.SetValOnHoldable | internal/configs/configs.go:297-307 | overrides that could be held remain so if and only if no other key lies above or below the new one |
| ConfigTree.PlainIsHoldable | internal/configs/configs.go:449-483 | the flat keys of a plain configuration can be held together |
| ConfigTree.SetValOnPlain | internal/configs/configs.go:297-307 | on a plain configuration exactly the key written changes if and only if it does not begin with a dot and no other key lies above or below it |
| Configs.FlattenHelper | internal/configs/configs.go:456-483 | the shared flat map gains exactly the dotted keys of the leaves below the prefix |
| Configs.Flatten | internal/configs/configs.go:449-453 | the result has exactly the leaves' keys, each with the value of a leaf of that key |
| Configs.GoMap.Put | internal/configs/overrides.go:9-32 | the in-place walk along the parts writes the value as the specification does, in maps that do not alias |
| Configs.UnflattenMap | internal/configs/overrides.go:6-35 | the nested maps built in place are those of writing all keys in some order |
| Markdown.ParseInline | internal/markdown/parser.go:177-256 | the loop over the text ends and computes the specified nodes |
| Markdown.ParseNode | internal/markdown/parser.go:179-254 | one turn reads one node, moves forward, and recurses only into strictly shorter text |
| Markdown.PrintParse | internal/markdown/ast.go:49-86 | printing the parse of any text gives the text back, for all nestings and unmatched delimiters |
| Markdown.DepthIrrelevant | internal/markdown/formatter_remarkdown.go:29-37 | the printed text of inline nodes does not depend on the depth |
| Markdown.ParsePrint | internal/markdown/parser.go:177-256 | parsing the print of a canonical tree gives the tree back |
| Markdown.ParseCanonical | internal/markdown/parser.go:177-256 | every parse is canonical |
| Markdown.CanonicalIsFixed | internal/markdown/parser.go:177-256 | a tree survives printing and parsing if and only if it is canonical |
| Markdown.DelimitedText | internal/markdown/parser.go:180-235 | plain text between two asterisks is strong, between one emphasised, between runs of tildes special of that level; beginning with a space, the asterisks are read as text or as empty emphasis |
| Buffs.TimedLife | internal/buffs/buffs.go:226-243 | from any point of a timed buff's life: its rounds are counted, every multiple of the interval costs a trigger, and it ends exactly when its triggers are used up |
| Buffs.TimedForever | internal/buffs/buffs.go:226-243 | a timed buff from any point of its life, for any number of rounds: counters, firings and the end, after which nothing changes |
| Buffs.NewTimedBuff | internal/buffs/buffs.go:315-320 | after any number of rounds a new timed buff has triggered once every RoundInterval rounds but TriggerCount times at most; GetDurations gives the rounds left and the rounds in all, and the buff is over from the round on in which the first is 0 |
| Buffs.EndsBelowTheMark | internal/buffs/buffs.go:235-240 | a buff that is not permanent ends at all if and only if its TriggerCount is below the mark for unlimited ones |
| Buffs.RefreshedBuff | internal/buffs/buffs.go:189-193 | after any number of rounds, a refreshed buff is over if and only if GetDurations has gone below 0 by the whole intervals passed before the refresh |
| Buffs.RefreshedOnTime | internal/buffs/buffs.go:189-193 | GetDurations tells the end of a refreshed buff, over all rounds, if and only if less than an interval had passed at the refresh |
| Buffs.RefreshedLate | internal/buffs/buffs.go:189-193 | a concrete buff that is alive when GetDurations is 0 |
| Buffs.UnlimitedBuff | internal/buffs/buffs.go:235-240 | a buff without limit never ends and triggers once every RoundInterval rounds |
| Buffs.IdIndexAt | internal/buffs/buffs.go:64-66 | the id lookup finds exactly the listed ids, each at a place where it is; it is as large as the list exactly if no id repeats |
| Buffs.FlagIndexAt | internal/buffs/buffs.go:71-76 | the flag lookup lists exactly the positions of the buffs that carry the flag |
| Buffs.AddedLookups | internal/buffs/buffs.go:174-209 | the lookups extended by AddBuff are those of the longer list if and only if the id is not negative |
| Buffs.NegativeId | internal/buffs/buffspec.go:129-139 | a concrete negative id that is listed under the wrong key |
| Buffs.NegativeIdAdded | internal/buffs/buffs.go:174-209 | a call with a negative id after which the lookups are wrong |
| Buffs.Buffs.Validate | internal/buffs/buffs.go:51-79 | rebuilds both lookups from the list when sizes differ or on demand, else leaves them |
| Buffs.Buffs.AgreesAt | internal/buffs/buffs.go:51-79 | what agreeing lookups mean: ids and flags are found if and only if some buff has them, at its position |
| Buffs.Buffs.RemoveBuff | internal/buffs/buffs.go:96-102 | exactly the buff with the id expires; found if and only if there is one |
| Buffs.Buffs.AddBuff | internal/buffs/buffs.go:174-209 | refreshes the buff with the id or appends a new one, with exact counters; the lookups agree afterwards if and only if the id's guard holds |
| Buffs.Buffs.AddedLasts | internal/buffs/buffs.go:174-194 | a buff added as permanent never ends, whatever its round counter; a fresh one that is not ends after TriggerCount * RoundInterval rounds |
| Buffs.Buffs.Trigger | internal/buffs/buffs.go:212-250 | every buff with a spec lives one round; exactly the firing ones are returned, in order; the returned buffs are those the comment promises if and only if no ids or those of all firing buffs are passed, and returned buffs and counters together if and only if no ids or those of all unexpired buffs with a spec are |
| Buffs.TriggerIgnoresIds | internal/buffs/buffs.go:216-224 | a call with one id that returns a buff of another |
| Buffs.TriggerAgesOthers | internal/buffs/buffs.go:216-224 | a call with one id that returns only that buff and ages another |
| Buffs.Buffs.Prune | internal/buffs/buffs.go:273-313 | exactly the buffs that are unexpired and have a spec stay, in their order; the others are returned from the last to the first; the lookups agree |
| Buffs.FilterKeepsOrder | internal/buffs/buffs.go:273-313 | two buffs that stay keep their order |
| Buffs.Buffs.HasFlag | internal/buffs/buffs.go:119-159 | true if and only if an unexpired buff carries the flag; told to expire, the exact new state, and the lookups agree if and only if no such buff has id 0 |
| Buffs.Buffs.FlagMeans | internal/buffs/buffs.go:119-159 | found if and only if an unexpired buff carries the flag, or any flag when asked for all; told to expire, exactly those buffs expire and the list stays, unless buff 0 is among them; not told to, nothing changes |
| Buffs.Buffs.ListAfter | internal/buffs/buffs.go:139-147 | after buff 0 is cut out the list is one shorter and the lookups do not agree with it; otherwise the list is unchanged |
| Buffs.Buffs.LastAlive | internal/buffs/buffs.go:128-156 | the loop meets an unexpired last buff a second time only if buff 0 was cut out right before it |
| Buffs.HasFlagPanics | internal/buffs/buffs.go:139-156 | a list of two buffs whose scan panics |
| Parties.NextLeaderIsFirst | internal/parties/parties.go:110-115 | every member before the new leader is the one leaving, and without another member the leader stays |
| Parties.Registry.PartiesDisjoint | internal/parties/parties.go:15-28 | nobody is listed by two live parties |
| Parties.Registry.MappedIsListed | internal/parties/parties.go:11-13 | a mapped user is a member or an invited user of the party mapped to |
| Parties.Registry.New | internal/parties/parties.go:15-28 | a user in no party gets a party of one; anyone else nothing; the registry stays sound |
| Parties.Registry.InvitePlayer | internal/parties/parties.go:148-156 | invites exactly users of no party; the registry stays sound |
| Parties.Registry.AcceptInvite | internal/parties/parties.go:158-172 | moves exactly an invited user to the members; the registry stays sound |
| Parties.Registry.DeclineInvite | internal/parties/parties.go:174-189 | drops exactly an invited user; the registry stays sound |
| Parties.Registry.Disband | internal/parties/parties.go:191-198 | unmaps all members and invited users of the party and nobody else |
| Parties.Registry.Leave | internal/parties/parties.go:103-128 | the exact new state with hand-over or disband, the new leader being the first member or, if that one leaves, the second; the registry is sound afterwards if and only if the user might leave |
| Parties.InvitedLeaves | internal/parties/parties.go:103-128 | a registry broken by the leave of somebody invited |
| Prompts.SkippedDoNotApply | internal/inputhandlers/login_prompt_handler.go:370-399 | exactly the steps whose condition is false on the current results are skipped |
| Prompts.SubmitCounted | internal/inputhandlers/login_prompt_handler.go:264-327 | a submission moves on by at least one step or is counted as a failure that is never forgotten and costs at most one step |
| Prompts.AskedAgain | internal/inputhandlers/login_prompt_handler.go:264-296 | a rejected answer is charged to its step and asked for again there, a rejected verification charged to the step before and asked for there; the third charge disconnects |
| Prompts.VerifiedAgain | internal/inputhandlers/login_prompt_handler.go:276-302 | after a rejected verification the next accepted answer replaces that of the step before and the verification is asked for again |
| Prompts.DialogEnds | internal/inputhandlers/login_prompt_handler.go:184-328 | in a dialog of n steps at most 2n + 1 submissions fail and at most n more are accepted than fail; after 5n submissions it is over |
| Prompts.DisconnectedAt | internal/inputhandlers/login_prompt_handler.go:284-289 | before a disconnect no step has three failures; after it the index is 99 beyond the step charged with the third |
| Prompts.DisconnectedIsOutside | internal/inputhandlers/login_prompt_handler.go:284-289 | after a disconnect the index lies beyond the last step, in every dialog of n steps, if and only if n is at most 99 |
| Prompts.StubbornDisconnects | internal/inputhandlers/login_prompt_handler.go:276-289 | a dialog of any n steps that three submissions leave at index 99 |
| Prompts.StoredIsValidated | internal/inputhandlers/login_prompt_handler.go:266-302 | every stored result is what its step's validator made of one of the submissions, when the dialog waited at that step with the results collected by then |
| Prompts.PromptHandler.AdvanceAndSendPrompt | internal/inputhandlers/login_prompt_handler.go:370-399 | moves to the next step that applies, or past the end |
| Prompts.PromptHandler.Handle | internal/inputhandlers/login_prompt_handler.go:158-328 | a call starts the dialog, follows one submission of the state machine, ignores other keys, or disconnects when the index is out of bounds |
| Login.StoreCollected | internal/inputhandlers/login.go:155-277 | storing an answer keeps what is known of the results before the next step |
| Login.SubmitKeepsLoginState | internal/inputhandlers/login.go:155-277 | every submission keeps the login dialog in its branch: sign-up steps are asked only in a sign-up, also after stepping back |
| Login.CompletedAnswers | internal/inputhandlers/login.go:205-273 | a completed dialog has exactly the answers of its branch, and in a sign-up the password equals its verification |
| Login.AnswersStored | internal/inputhandlers/login_prompt_handler.go:79-155 | which answers each login step takes and what it stores: new in any case, names of the least length, yes and no by their first letter with no as default, an empty address unless one is required |
| Login.NextAsked | internal/inputhandlers/login.go:155-277 | which question comes next at every point of the dialog, by the answers so far and the site: the kick only for a user connected whose password was right, the address only where the site wants one |
| Login.KickedAfterPassword | internal/inputhandlers/login.go:20-47 | a login that kicks, even one then refused, had shown the right password of the kicked user at some submission before |
| Login.CrashesWhenGone | internal/inputhandlers/login.go:20-47 | a completed dialog crashes if and only if the kick was answered with y and that user is known but not connected; he was connected at some submission before |
| Login.KickedHasLeft | internal/inputhandlers/login.go:29-38 | a dialog of three answers whose login crashes, because the user to disconnect has left by then |
| Login.LoggedInByPassword | internal/inputhandlers/login.go:16-86 | a completed dialog logs in if and only if the name is not new, is known, loads, is admitted, its password matches at that call, and the user to kick, if any, is there; name, password and the yes to a kick were typed |
| Login.NewAccount | internal/inputhandlers/login.go:87-149 | an account is created if and only if new was entered, the sign-up confirmed with y, the name is free and the account accepted at that call; name, password and address were typed and approved, the password twice alike, and the confirmation was a yes |

## Left out

- MapPath.FindPath: scores are integers, since the source's float64 values are sums of ones and grid offsets; the conversions are not modelled.
- GetPath.GetPath: the LRU cache is modelled as one that may forget any entries at any addition, which covers every capacity; the lookup of the zone's map is a parameter.
- Mapper.Mapper.Start: the table of direction offsets is a parameter whose offsets are not zero; a room other than room 0 is assumed to have the id it was loaded under; symbols, legends and secret or locked flags are left out.
- Mapper.Mapper.ScanFrom: covers the scan of FindAdjacentRoom; the exact-exit case before it and the adjustment of direction names are left out.
- World.World.EventLoop: handlers are a script of replies of any length, and a pass that outlives the script is cut off there, since handlers that keep adding events need not end; the requeue list of the World object, which nothing fills, is left out.
- World.World.HandleInputEvents: executing an input and unblocking a user object are left out; that an input ran is recorded instead. A ready turn is not negative, as in the source's unsigned type.
- GridMaze.GridMaze.Generate2D: the seed is replaced by arbitrary choices, so nothing is said of how likely an outcome is.
- MazeRooms.CreateEphemeralMaze2D: rows have equal length.
- Events.EventQueue.AddToQueue: the mutex is left out, each critical section being one step.
- Buffs.TimedForever: the counters are unbounded integers.
- Rooms.RoomStore.CreateEphemeralRoomIds: templates are a map of exits; the other fields of a room, zones and the 32-bit id minimum are left out.
- Markdown.ParseInline: block structure (headings, lists, rules, hard breaks, paragraphs) is left out; an indented line beginning with --- makes the block parser loop.
- Configs.Flatten: values other than maps are told apart by a number only; the reflection-based search for full paths and YAML are left out.
- Buffs.Buffs.AddBuff: the caller's lookups must agree with the list, which holds from a new list on as long as the guards stated are kept; names, sources, stat mods and OnStartWaiting are left out.
- Buffs.Buffs.HasFlag: every listed buff must have a spec, since the source dereferences a missing one.
- Parties.Registry.Leave: operations are on parties that somebody is still mapped to, which is how callers obtain them; auto-attack lists and ranks are left out.
- Prompts.PromptHandler.Handle: prompts, echo, masking, buffering and trimming of input are left out; the trimmed line is an argument.
- Login.NewAccount: name, password and address checks, stored accounts and connected users are parameters that may change from call to call; lengths count characters rather than bytes.
- EphemeralRoomMaintenance, FindEphemeralRoomIds and CreateEphemeralZone: loops over the operations modelled.
- Map rendering, mapper copies, commands, hooks, combat, scripting, templates and connections: I/O and glue without a general statement.
