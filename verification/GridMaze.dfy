/**
 The maze generator of internal/procedural/gridmaze.go. Every random draw is an arbitrary choice,
 so what is proved holds for every seed.
 */
module GridMaze {
  import opened Graphs
  import opened Common

  class GridRoom {
    const x: int
    const y: int
    var connections: seq<GridRoom>
    var step: int
    var distanceFromStart: int
    var isStart: bool
    var isEnd: bool

    constructor (x: int, y: int)
      ensures this.x == x && this.y == y && connections == []
      ensures step == 0 && distanceFromStart == 0 && !isStart && !isEnd
    {
      this.x, this.y := x, y;
      connections := [];
      step, distanceFromStart := 0, 0;
      isStart, isEnd := false, false;
    }

    // The source compares coordinates, not pointers.
    predicate IsConnectedTo(other: GridRoom)
      reads this`connections
    {
      exists c <- connections :: c.x == other.x && c.y == other.y
    }

    method AddConnection(other: GridRoom)
      modifies this`connections, other`connections
      requires other != this
      ensures old(IsConnectedTo(other)) ==> connections == old(connections) && other.connections == old(other.connections)
      ensures !old(IsConnectedTo(other)) ==>
        connections == old(connections) + [other] && other.connections == old(other.connections) + [this]
    {
      if IsConnectedTo(other) {
        return;
      }
      connections := connections + [other];
      other.connections := other.connections + [this];
    }

    // The inner loop of removeRoom: cut the first connection back to room.
    method CutConnection(room: GridRoom)
      modifies this`connections
      ensures connections == Without(old(connections), room)
    {
      for i := 0 to |connections|
        invariant connections == old(connections)
        invariant forall k :: 0 <= k < i ==> connections[k] != room
      {
        if connections[i] == room {
          WithoutCut(connections, room, i);
          connections := connections[..i] + connections[i + 1..];
          return;
        }
      }
      WithoutAbsent(connections, room);
    }
  }

  predicate Adjacent(r: GridRoom, q: GridRoom) {
    (r.x == q.x && (q.y == r.y + 1 || q.y == r.y - 1)) || (r.y == q.y && (q.x == r.x + 1 || q.x == r.x - 1))
  }

  // The rooms and their connections as a graph.
  ghost function GraphOf(live: set<GridRoom>): Graph<GridRoom>
    reads live`connections
  {
    map r | r in live :: set c | c in r.connections
  }

  // Connections are symmetric, duplicate-free, and join live rooms in orthogonally neighbouring cells.
  ghost predicate OnGrid(live: set<GridRoom>)
    reads live`connections
  {
    && (forall r, c :: r in live && c in r.connections ==> c in live && Adjacent(r, c) && r in c.connections)
    && (forall r :: r in live ==> NoDuplicates(r.connections))
  }

  datatype WeightedCandidate = WeightedCandidate(x: int, y: int, weight: int)

  function TotalWeight(cs: seq<WeightedCandidate>): int {
    if cs == [] then 0 else TotalWeight(cs[..|cs| - 1]) + cs[|cs| - 1].weight
  }

  // No draw selects two candidates.
  lemma {:induction false} DrawSelectsOne(cs: seq<WeightedCandidate>, draw: int, i: nat, j: nat)
    requires i < j < |cs| && forall k :: 0 <= k < |cs| ==> cs[k].weight >= 1
    requires TotalWeight(cs[..i]) <= draw < TotalWeight(cs[..i]) + cs[i].weight
    ensures draw < TotalWeight(cs[..j])
  {
    assert cs[..j][..j - 1] == cs[..j - 1];
    if j - 1 > i {
      DrawSelectsOne(cs, draw, i, j - 1);
    }
  }

  // ---------- spanning trees ----------

  function AddEdge<V>(g: Graph<V>, p: V, q: V): Graph<V>
    requires p in g && q in g && p != q
  {
    g[p := g[p] + {q}][q := g[q] + {p}]
  }

  // g1 has the vertices of g0 and all its edges, and differs from it only at the vertices in N.
  ghost predicate GrewAt<V>(g0: Graph<V>, g1: Graph<V>, N: set<V>) {
    Extends(g0, g1) && g0.Keys == g1.Keys && N <= g1.Keys && forall r :: r in g1 && r !in N ==> g1[r] == g0[r]
  }

  ghost predicate ReachesAll<V>(g: Graph<V>, root: V, N: set<V>) {
    forall r :: r in N ==> Reach(g, root, r)
  }

  // g1 grew out of g0 by a tree rooted at root whose vertices are exactly N: all of N is reachable
  // from root, |N| - 1 edges (each stored twice) were added, and nothing else changed.
  ghost predicate GrewTree<V>(g0: Graph<V>, g1: Graph<V>, N: set<V>, root: V) {
    && GrewAt(g0, g1, N)
    && root in N
    && ReachesAll(g1, root, N)
    && |Edges(g1)| == |Edges(g0)| + 2 * (|N| - 1)
  }

  lemma SingletonTree<V>(g: Graph<V>, root: V)
    requires root in g
    ensures GrewTree(g, g, {root}, root)
  {
    ReachRefl(g, root);
  }

  lemma AddEdgeCount<V>(g: Graph<V>, p: V, q: V)
    requires p in g && q in g && p != q && q !in g[p] && p !in g[q]
    ensures |Edges(AddEdge(g, p, q))| == |Edges(g)| + 2
  {
    hide Edges, AddEdge;
    EdgesAdded(g, p, q);
    EdgeIs(g, p, q);
    EdgeIs(g, q, p);
  }

  lemma EdgeIs<V>(g: Graph<V>, v: V, w: V)
    requires v in g
    ensures (v, w) in Edges(g) <==> w in g[v]
  {
  }

  lemma EdgesAdded<V>(g: Graph<V>, p: V, q: V)
    requires p in g && q in g && p != q
    ensures Edges(AddEdge(g, p, q)) == Edges(g) + {(p, q)} + {(q, p)}
  {
    forall e: (V, V)
      ensures e in Edges(AddEdge(g, p, q)) <==> e in Edges(g) + {(p, q)} + {(q, p)}
    {
      if e.0 in g {
        EdgeIs(g, e.0, e.1);
        EdgeIs(AddEdge(g, p, q), e.0, e.1);
      }
    }
  }

  lemma JoinReach<V>(g1: Graph<V>, g3: Graph<V>, N1: set<V>, N2: set<V>, root: V, n: V)
    requires Extends(g1, g3) && ReachesAll(g1, root, N1) && ReachesAll(g3, n, N2)
    requires root in g3 && n in g3 && n in g3[root]
    ensures ReachesAll(g3, root, N1 + N2)
  {
    forall r | r in N1 + N2
      ensures Reach(g3, root, r)
    {
      if r in N1 {
        ReachExtends(g1, g3, root, r);
      } else {
        ReachStep(g3, root, n);
        ReachTrans(g3, root, n, r);
      }
    }
  }

  lemma JoinFrames<V>(g0: Graph<V>, g1: Graph<V>, g3: Graph<V>, N1: set<V>, N2: set<V>, root: V, n: V)
    requires root in N1 && n in N2 && n in g1 && root in g1 && root != n
    requires GrewAt(g0, g1, N1) && GrewAt(AddEdge(g1, root, n), g3, N2)
    ensures GrewAt(g0, g3, N1 + N2) && Extends(g1, g3) && n in g3[root]
  {
    var g2 := AddEdge(g1, root, n);
    assert Extends(g1, g2);
    assert n in g2[root];
  }

  // A tree hung under root through a fresh edge to n extends the tree at root.
  lemma JoinTrees<V>(g0: Graph<V>, g1: Graph<V>, g3: Graph<V>, N1: set<V>, N2: set<V>, root: V, n: V)
    requires GrewTree(g0, g1, N1, root)
    requires n in g1 && N1 !! N2 && root != n
    requires n !in g1[root] && root !in g1[n]
    requires GrewTree(AddEdge(g1, root, n), g3, N2, n)
    ensures GrewTree(g0, g3, N1 + N2, root)
  {
    AddEdgeCount(g1, root, n);
    JoinFrames(g0, g1, g3, N1, N2, root, n);
    JoinReach(g1, g3, N1, N2, root, n);
    assert |N1 + N2| == |N1| + |N2|;
  }

  // ---------- extra connections and removals, as steps of the graph ----------

  // Two neighbouring rooms that can be given a connection
  ghost predicate Joinable(g: Graph<GridRoom>, p: GridRoom, q: GridRoom) {
    p in g && q in g && p != q && Adjacent(p, q) && q !in g[p] && |g[p]| < 3 && |g[q]| < 3
  }

  ghost predicate CanJoin(g: Graph<GridRoom>, p: GridRoom) {
    exists q: GridRoom :: q in g && Joinable(g, p, q)
  }

  // One attempt at the room drawn, or at an empty cell: a joinable neighbour is joined if there is one.
  ghost predicate Attempt(g: Graph<GridRoom>, h: Graph<GridRoom>, drawn: GridRoom?) {
    if drawn == null || !CanJoin(g, drawn) then h == g
    else exists q: GridRoom :: q in g && Joinable(g, drawn, q) && h == AddEdge<GridRoom>(g, drawn, q)
  }

  ghost predicate Grows(stages: seq<Graph<GridRoom>>, drawn: seq<GridRoom?>) {
    |stages| == |drawn| + 1 && forall i :: 0 <= i < |drawn| ==> Attempt(stages[i], stages[i + 1], drawn[i])
  }

  lemma AttemptEdges(g: Graph<GridRoom>, h: Graph<GridRoom>, drawn: GridRoom?)
    requires Attempt(g, h, drawn) && Symmetric(g)
    ensures h.Keys == g.Keys && Symmetric(h) && |Edges(h)| <= |Edges(g)| + 2
  {
    hide Edges, CanJoin;
    if drawn != null && CanJoin(g, drawn) {
      var q: GridRoom :| q in g && Joinable(g, drawn, q) && h == AddEdge<GridRoom>(g, drawn, q);
      AddEdgeCount<GridRoom>(g, drawn, q);
    }
  }

  // Each attempt adds one connection at most.
  lemma {:induction false} GrowsEdges(stages: seq<Graph<GridRoom>>, drawn: seq<GridRoom?>)
    requires Grows(stages, drawn) && Symmetric(stages[0])
    ensures var last := stages[|drawn|];
            last.Keys == stages[0].Keys && Symmetric(last) && |Edges(last)| <= |Edges(stages[0])| + 2 * |drawn|
    decreases |drawn|
  {
    hide Attempt, Edges, Symmetric;
    if drawn != [] {
      var n := |drawn| - 1;
      GrowsEdges(stages[..n + 1], drawn[..n]);
      AttemptEdges(stages[n], stages[n + 1], drawn[n]);
    }
  }

  lemma GrowsNext(stages: seq<Graph<GridRoom>>, drawn: seq<GridRoom?>, h: Graph<GridRoom>, r: GridRoom?)
    requires Grows(stages, drawn) && Attempt(stages[|drawn|], h, r)
    ensures Grows(stages + [h], drawn + [r])
  {
    hide Attempt;
    var stages', drawn' := stages + [h], drawn + [r];
    forall i | 0 <= i < |drawn'|
      ensures Attempt(stages'[i], stages'[i + 1], drawn'[i])
    {
      if i < |drawn| {
        assert stages'[i] == stages[i] && stages'[i + 1] == stages[i + 1] && drawn'[i] == drawn[i];
      }
    }
  }

  ghost function RemoveAll(g: Graph<GridRoom>, removed: seq<GridRoom>): Graph<GridRoom> {
    if removed == [] then g else Remove(RemoveAll(g, removed[..|removed| - 1]), removed[|removed| - 1])
  }

  predicate Before(r: GridRoom, x: int, y: int) {
    r.x < x || (r.x == x && r.y < y)
  }

  // Rooms removed one after the other, column by column: each is off the path, and its neighbours reach each
  // other without it in what is left at the time.
  ghost predicate Cuts(g: Graph<GridRoom>, path: seq<GridRoom>, removed: seq<GridRoom>) {
    && (forall i :: 0 <= i < |removed| ==> removed[i] !in path && CutAt(g, removed, i))
    && (forall i, j :: 0 <= i < j < |removed| ==> Before(removed[i], removed[j].x, removed[j].y))
  }

  ghost predicate CutAt(g: Graph<GridRoom>, removed: seq<GridRoom>, i: int)
    requires 0 <= i < |removed|
  {
    removed[i] in RemoveAll(g, removed[..i]) && Bypassed(RemoveAll(g, removed[..i]), removed[i])
  }

  lemma CutLast(g: Graph<GridRoom>, removed: seq<GridRoom>, r: GridRoom)
    requires r in RemoveAll(g, removed) && Bypassed(RemoveAll(g, removed), r)
    ensures CutAt(g, removed + [r], |removed|) && RemoveAll(g, removed + [r]) == Remove(RemoveAll(g, removed), r)
  {
    hide Bypassed, Remove;
    assert (removed + [r])[..|removed|] == removed;
  }

  lemma CutBefore(g: Graph<GridRoom>, removed: seq<GridRoom>, r: GridRoom, i: int)
    requires 0 <= i < |removed| && CutAt(g, removed, i)
    ensures CutAt(g, removed + [r], i)
  {
    hide Bypassed, RemoveAll;
    assert (removed + [r])[..i] == removed[..i];
  }

  lemma CutsNext(g: Graph<GridRoom>, path: seq<GridRoom>, removed: seq<GridRoom>, r: GridRoom)
    requires Cuts(g, path, removed) && r !in path && r in RemoveAll(g, removed) && Bypassed(RemoveAll(g, removed), r)
    requires forall i :: 0 <= i < |removed| ==> Before(removed[i], r.x, r.y)
    ensures Cuts(g, path, removed + [r]) && RemoveAll(g, removed + [r]) == Remove(RemoveAll(g, removed), r)
  {
    hide Bypassed, Before, Remove, CutAt;
    var removed' := removed + [r];
    CutLast(g, removed, r);
    forall i | 0 <= i < |removed'|
      ensures removed'[i] !in path && CutAt(g, removed', i)
    {
      if i < |removed| {
        CutBefore(g, removed, r, i);
      }
    }
  }

  ghost predicate Irreflexive(g: Graph<GridRoom>) {
    forall v :: v in g ==> v !in g[v]
  }

  // A removal takes at least one connection and one room away.
  lemma RemoveEdges(g: Graph<GridRoom>, r: GridRoom, w: GridRoom)
    requires Symmetric(g) && r in g && w in g && w != r && w in g[r]
    ensures |Edges(Remove(g, r))| <= |Edges(g)| - 2 && |Remove(g, r)| == |g| - 1 && Symmetric(Remove(g, r))
  {
    hide Edges, Remove;
    RemoveIsSmaller(g, r);
    EdgeIs<GridRoom>(g, r, w);
    EdgeIs<GridRoom>(g, w, r);
    var kept := Edges(Remove(g, r));
    assert kept + {(r, w), (w, r)} <= Edges(g);
    SubsetSmaller<(GridRoom, GridRoom)>(kept + {(r, w), (w, r)}, Edges(g));
    assert |kept + {(r, w), (w, r)}| == |kept| + 2;
  }

  lemma RemoveIsSmaller(g: Graph<GridRoom>, r: GridRoom)
    requires r in g && Symmetric(g)
    ensures |Remove(g, r)| == |g| - 1 && Symmetric(Remove(g, r))
    ensures Edges(Remove(g, r)) <= Edges(g) && forall v, w :: (v, w) in Edges(Remove(g, r)) ==> v != r && w != r
  {
    assert Remove(g, r).Keys == g.Keys - {r};
    assert |Remove(g, r)| == |Remove(g, r).Keys| && |g| == |g.Keys|;
  }

  lemma SubsetSmaller<T>(a: set<T>, b: set<T>)
    requires a <= b
    ensures |a| <= |b|
  {
    assert b == a + (b - a);
  }

  lemma HasNeighbour(g: Graph<GridRoom>, start: GridRoom, r: GridRoom) returns (w: GridRoom)
    requires Symmetric(g) && r in g && r != start && Reach(g, start, r)
    ensures w in g && w in g[r]
  {
    var n: nat :| ReachIn(g, start, r, n);
    w := LastStep<GridRoom>(g, start, r, n);
  }

  // So rooms removed leave no more independent loops than there were, and the rest connected.
  lemma {:induction false} CutsLoops(g: Graph<GridRoom>, path: seq<GridRoom>, removed: seq<GridRoom>, start: GridRoom)
    requires Symmetric(g) && Irreflexive(g) && start in g && start in path && ConnectedFrom(g, start) && Cuts(g, path, removed)
    ensures var h := RemoveAll(g, removed);
            && Symmetric(h) && Irreflexive(h) && start in h && ConnectedFrom(h, start)
            && |Edges(h)| - 2 * |h| <= |Edges(g)| - 2 * |g|
    decreases |removed|
  {
    hide Symmetric, Bypassed, Edges, Reach, Before;
    if removed != [] {
      var n := |removed| - 1;
      var h, r := RemoveAll(g, removed[..n]), removed[n];
      CutsFirst(g, path, removed);
      CutsLoops(g, path, removed[..n], start);
      assert CutAt(g, removed, n);
      var w := HasNeighbour(h, start, r);
      RemoveEdges(h, r, w);
      RemoveKeepsConnected<GridRoom>(h, start, r);
    }
  }

  lemma CutsFirst(g: Graph<GridRoom>, path: seq<GridRoom>, removed: seq<GridRoom>)
    requires Cuts(g, path, removed) && removed != []
    ensures Cuts(g, path, removed[..|removed| - 1])
  {
    hide Bypassed, Before, RemoveAll;
    var front := removed[..|removed| - 1];
    forall i | 0 <= i < |front|
      ensures front[i] !in path && CutAt(g, front, i)
    {
      assert front[..i] == removed[..i] && CutAt(g, removed, i);
    }
  }

  datatype Phases = Phases(stages: seq<Graph<GridRoom>>, drawn: seq<GridRoom?>, removed: seq<GridRoom>)

  // g1 is what n attempts at rooms drawn and then some removals make of g0.
  ghost predicate PhasesOf(g0: Graph<GridRoom>, ph: Phases, n: int, path: seq<GridRoom>, g1: Graph<GridRoom>) {
    && |ph.drawn| == n && Grows(ph.stages, ph.drawn) && ph.stages[0] == g0
    && (forall i :: 0 <= i < n ==> ph.drawn[i] != null)
    && Cuts(ph.stages[n], path, ph.removed) && g1 == RemoveAll(ph.stages[n], ph.removed)
  }

  // At most n more independent loops
  lemma PhasesEdges(g0: Graph<GridRoom>, ph: Phases, n: int, path: seq<GridRoom>, g1: Graph<GridRoom>, start: GridRoom)
    requires PhasesOf(g0, ph, n, path, g1) && Symmetric(g0)
    requires Symmetric(ph.stages[n]) && Irreflexive(ph.stages[n])
    requires start in ph.stages[n] && start in path && ConnectedFrom(ph.stages[n], start)
    ensures |Edges(g1)| - 2 * |g1| <= |Edges(g0)| - 2 * |g0| + 2 * n
  {
    hide Attempt, Cuts, RemoveAll, Edges, Symmetric, Irreflexive, ConnectedFrom;
    GrowsEdges(ph.stages, ph.drawn);
    CutsLoops(ph.stages[n], path, ph.removed, start);
    assert |ph.stages[n]| == |ph.stages[n].Keys| == |g0.Keys| == |g0|;
  }

  predicate IsDirection(dir: (int, int)) {
    dir in {(0, 1), (1, 0), (0, -1), (-1, 0)}
  }

  // The neighbour of room in this direction, if there is one, has been seen.
  ghost predicate Looked(dir: (int, int), room: GridRoom, live: set<GridRoom>, seen: set<GridRoom>) {
    forall q :: q in live && q.x == room.x + dir.0 && q.y == room.y + dir.1 ==> q in seen
  }

  lemma AllLooked(dirs: seq<(int, int)>, room: GridRoom, live: set<GridRoom>, seen: set<GridRoom>)
    requires multiset(dirs) == multiset{(0, 1), (1, 0), (0, -1), (-1, 0)}
    requires forall k :: 0 <= k < |dirs| ==> Looked(dirs[k], room, live, seen)
    ensures forall q :: q in live && Adjacent(room, q) ==> q in seen
  {
    forall q | q in live && Adjacent(room, q)
      ensures q in seen
    {
      var dir := (q.x - room.x, q.y - room.y);
      assert dir in multiset(dirs);
      var k :| 0 <= k < |dirs| && dirs[k] == dir;
      assert Looked(dirs[k], room, live, seen);
    }
  }

  class GridMaze {
    var rooms: array2<GridRoom?>   // indexed [y, x]
    var startX: int
    var startY: int
    var endX: int
    var endY: int
    var criticalPath: seq<GridRoom>
    ghost var live: set<GridRoom>  // the rooms still in the grid

    constructor ()
      ensures endX == 0 && endY == 0 && criticalPath == []
    {
      rooms := new GridRoom?[0, 0];
      startX, startY, endX, endY := 0, 0, 0, 0;
      criticalPath := [];
      live := {};
    }

    // The grid holds exactly the live rooms, each in its own cell.
    ghost predicate Placed()
      reads this`rooms, this`live, rooms
    {
      && (forall x, y :: 0 <= x < rooms.Length1 && 0 <= y < rooms.Length0 && rooms[y, x] != null ==>
            rooms[y, x] in live && rooms[y, x].x == x && rooms[y, x].y == y)
      && (forall r :: r in live ==>
            0 <= r.x < rooms.Length1 && 0 <= r.y < rooms.Length0 && rooms[r.y, r.x] == r)
    }

    ghost predicate Valid()
      reads this`rooms, this`live, rooms, live`connections
    {
      Placed() && OnGrid(live)
    }

    ghost function G(): Graph<GridRoom>
      reads this`live, live`connections
    {
      GraphOf(live)
    }

    ghost predicate Full()
      reads this`rooms, rooms
    {
      forall x, y :: 0 <= x < rooms.Length1 && 0 <= y < rooms.Length0 ==> rooms[y, x] != null
    }

    ghost predicate Size(xMax: int, yMax: int)
      reads this`rooms
    {
      xMax >= 1 && yMax >= 1 && rooms.Length0 == yMax && rooms.Length1 == xMax
    }

    ghost function Seen(visited: array2<bool>): set<GridRoom>
      requires Placed() && visited.Length0 == rooms.Length0 && visited.Length1 == rooms.Length1
      reads this`rooms, this`live, rooms, visited
    {
      set r | r in live && visited[r.y, r.x]
    }

    // Columns 0 up to (not including) x are filled with untouched rooms, column x up to row y.
    ghost predicate FilledTo(x: int, y: int)
      reads this`rooms, this`live, rooms, live
    {
      && 0 <= x <= rooms.Length1 && 0 <= y <= rooms.Length0
      && (forall i, j :: 0 <= i < rooms.Length1 && 0 <= j < rooms.Length0 && (i < x || (i == x && j < y)) ==>
            rooms[j, i] != null && rooms[j, i] in live && rooms[j, i].x == i && rooms[j, i].y == j)
      && (forall r :: r in live ==>
            0 <= r.x <= x && 0 <= r.y < rooms.Length0 && (r.x < x || r.y < y) && r.x < rooms.Length1 && rooms[r.y, r.x] == r)
      && (forall r :: r in live ==> r.connections == [] && r.step == 0 && !r.isStart && !r.isEnd)
    }

    method CreateRoom(x: int, y: int)
      requires FilledTo(x, y) && x < rooms.Length1 && y < rooms.Length0
      modifies this`live, rooms
      ensures FilledTo(x, y + 1)
      ensures fresh(live - old(live)) && |live| == |old(live)| + 1
    {
      var room := new GridRoom(x, y);
      rooms[y, x] := room;
      live := live + {room};
    }

    method CreateAllRooms(xMax: int, yMax: int)
      requires Size(xMax, yMax)
      modifies this`live, rooms
      ensures Valid() && Full() && fresh(live) && |live| == xMax * yMax
      ensures forall r :: r in live ==> r.connections == [] && r.step == 0 && !r.isStart && !r.isEnd
    {
      hide FilledTo, Valid, Full;
      live := {};
      NothingFilled();
      for x := 0 to xMax
        invariant FilledTo(x, 0) && fresh(live) && |live| == x * yMax
      {
        for y := 0 to yMax
          invariant FilledTo(x, y) && fresh(live) && |live| == x * yMax + y
        {
          CreateRoom(x, y);
        }
        ColumnFilled(x);
        assert |live| == (x + 1) * yMax;
      }
      AllFilled();
    }

    lemma NothingFilled()
      requires live == {}
      ensures FilledTo(0, 0)
    {
    }

    lemma ColumnFilled(x: int)
      requires FilledTo(x, rooms.Length0) && x < rooms.Length1
      ensures FilledTo(x + 1, 0)
    {
    }

    lemma AllFilled()
      requires FilledTo(rooms.Length1, 0)
      ensures Valid() && Full()
      ensures forall r :: r in live ==> r.connections == [] && r.step == 0 && !r.isStart && !r.isEnd
    {
    }

    method ShuffleDirections(directions: array<(int, int)>)
      modifies directions
      ensures multiset(directions[..]) == old(multiset(directions[..]))
    {
      var i := directions.Length - 1;
      while i > 0
        invariant multiset(directions[..]) == old(multiset(directions[..]))
      {
        var j :| 0 <= j < i + 1;
        directions[i], directions[j] := directions[j], directions[i];
        i := i - 1;
      }
    }

    lemma NotYetConnected(p: GridRoom, q: GridRoom)
      requires Valid() && p in live && q in live && q.connections == []
      ensures !p.IsConnectedTo(q)
    {
      forall c | c in p.connections
        ensures c.x != q.x || c.y != q.y
      {
        assert rooms[c.y, c.x] == c && rooms[q.y, q.x] == q;
      }
    }

    // addConnection on two neighbouring cells that are not yet connected.
    method Connect(p: GridRoom, q: GridRoom)
      requires Valid() && p in live && q in live && Adjacent(p, q)
      requires !p.IsConnectedTo(q)
      modifies p`connections, q`connections
      ensures Valid()
      ensures q !in old(G()[p]) && p !in old(G()[q])
      ensures G() == AddEdge(old(G()), p, q)
      ensures p.connections == old(p.connections) + [q] && q.connections == old(q.connections) + [p]
    {
      hide Placed, OnGrid, NoDuplicates, AddEdge;
      ghost var g, pc, qc := G(), p.connections, q.connections;
      NotMutual(p, q);
      RoomsOnGrid();
      p.AddConnection(q);
      ConnectedGraph(g, p, q, pc, qc);
    }

    lemma NotMutual(p: GridRoom, q: GridRoom)
      requires OnGrid(live) && p in live && q in live && !p.IsConnectedTo(q)
      ensures q !in p.connections && p !in q.connections
    {
    }

    lemma RoomsOnGrid()
      requires OnGrid(live)
      ensures forall r, c :: r in live && c in G()[r] ==> c in live && Adjacent(r, c) && r in G()[c]
      ensures forall r :: r in live ==> NoDuplicates(r.connections) && G()[r] == set c | c in r.connections
    {
      hide NoDuplicates, Adjacent;
    }

    lemma ConnectedGraph(g: Graph<GridRoom>, p: GridRoom, q: GridRoom, pc: seq<GridRoom>, qc: seq<GridRoom>)
      requires g.Keys == live && p in live && q in live && p != q && Adjacent(p, q)
      requires p.connections == pc + [q] && NoDuplicates(pc) && g[p] == (set c | c in pc) && q !in pc
      requires q.connections == qc + [p] && NoDuplicates(qc) && g[q] == (set c | c in qc) && p !in qc
      requires forall r :: r in live && r != p && r != q ==>
        NoDuplicates(r.connections) && g[r] == set c | c in r.connections
      requires forall r, c :: r in live && c in g[r] ==> c in live && Adjacent(r, c) && r in g[c]
      ensures OnGrid(live) && G() == AddEdge(g, p, q)
    {
      hide NoDuplicates;
      NoDuplicatesLast(p.connections);
      NoDuplicatesLast(q.connections);
      assert p.connections[..|p.connections| - 1] == pc && q.connections[..|q.connections| - 1] == qc;
      assert G()[p] == g[p] + {q} && G()[q] == g[q] + {p};
    }

    // Everything the search has added since it entered room: a tree over the newly seen rooms, no
    // connection of an unseen room, and no unseen neighbour except of room itself.
    ghost predicate Growing(g0: Graph<GridRoom>, seen0: set<GridRoom>, room: GridRoom, visited: array2<bool>)
      requires Placed() && visited.Length0 == rooms.Length0 && visited.Length1 == rooms.Length1
      reads this`rooms, this`live, rooms, live`connections, visited
    {
      && seen0 <= Seen(visited)
      && room in Seen(visited)
      && GrewTree(g0, G(), Seen(visited) - seen0, room)
      && (forall r :: r in live && r !in Seen(visited) ==> r.connections == [])
      && (forall r, q :: r in Seen(visited) - seen0 && r != room && q in live && Adjacent(r, q) ==> q in Seen(visited))
    }

    method VisitNeighbour(x: int, y: int, nx: int, ny: int, visited: array2<bool>, xMax: int, yMax: int,
                          ghost g0: Graph<GridRoom>, ghost seen0: set<GridRoom>)
      requires Valid() && Full() && Size(xMax, yMax)
      requires visited.Length0 == yMax && visited.Length1 == xMax
      requires 0 <= x < xMax && 0 <= y < yMax && visited[y, x]
      requires 0 <= nx < xMax && 0 <= ny < yMax && !visited[ny, nx]
      requires IsDirection((nx - x, ny - y))
      requires Growing(g0, seen0, rooms[y, x], visited)
      modifies visited, live`connections
      ensures Valid()
      ensures Growing(g0, seen0, rooms[y, x], visited)
      ensures old(Seen(visited)) <= Seen(visited) && visited[ny, nx]
      decreases live - Seen(visited), 1
    {
      hide GrewTree, Reach, Edges, OnGrid, GraphOf, AddEdge, Growing;
      ghost var g1, seen1 := G(), Seen(visited);
      ghost var room: GridRoom, n: GridRoom := rooms[y, x], rooms[ny, nx];
      GrowingIs(g0, seen0, room, visited);
      LiveIsVertex(room);
      LiveIsVertex(n);
      assert Adjacent(room, n);
      NotYetConnected(room, n);
      Connect(rooms[y, x], rooms[ny, nx]);
      assert Seen(visited) == seen1;
      Backtrack(nx, ny, visited, xMax, yMax);
      GrowsOn(g0, seen0, room, g1, seen1, n, visited);
    }

    lemma GrowingIs(g0: Graph<GridRoom>, seen0: set<GridRoom>, room: GridRoom, visited: array2<bool>)
      requires Placed() && visited.Length0 == rooms.Length0 && visited.Length1 == rooms.Length1
      requires Growing(g0, seen0, room, visited)
      ensures seen0 <= Seen(visited) && room in Seen(visited) && GrewTree(g0, G(), Seen(visited) - seen0, room)
      ensures forall r :: r in live && r !in Seen(visited) ==> r.connections == []
      ensures forall r, q :: r in Seen(visited) - seen0 && r != room && q in live && Adjacent(r, q) ==> q in Seen(visited)
    {
      hide GrewTree, GraphOf, Seen;
    }

    // The search below n, reached from room over a new connection, belongs to the search of room.
    lemma GrowsOn(g0: Graph<GridRoom>, seen0: set<GridRoom>, room: GridRoom,
                  g1: Graph<GridRoom>, seen1: set<GridRoom>, n: GridRoom, visited: array2<bool>)
      requires Placed() && visited.Length0 == rooms.Length0 && visited.Length1 == rooms.Length1
      requires seen0 <= seen1 && room in seen1 && GrewTree(g0, g1, seen1 - seen0, room)
      requires forall r, q :: r in seen1 - seen0 && r != room && q in live && Adjacent(r, q) ==> q in seen1
      requires room in g1 && n in g1 && room != n && n !in g1[room] && room !in g1[n]
      requires Growing(AddEdge(g1, room, n), seen1, n, visited)
      requires forall q :: q in live && Adjacent(n, q) ==> q in Seen(visited)
      ensures Growing(g0, seen0, room, visited) && seen1 + {n} <= Seen(visited)
    {
      hide GrewTree, GraphOf, Seen, AddEdge, Adjacent;
      var seen := Seen(visited);
      JoinTrees(g0, g1, G(), seen1 - seen0, seen - seen1, room, n);
      assert seen - seen0 == (seen1 - seen0) + (seen - seen1);
    }

    // The four directions in a random order.
    method RandomDirections() returns (dirs: seq<(int, int)>)
      ensures multiset(dirs) == multiset{(0, 1), (1, 0), (0, -1), (-1, 0)}
      ensures forall k :: 0 <= k < |dirs| ==> IsDirection(dirs[k])
    {
      var directions := new (int, int)[] [(0, 1), (1, 0), (0, -1), (-1, 0)];
      assert directions[..] == [(0, 1), (1, 0), (0, -1), (-1, 0)];
      ShuffleDirections(directions);
      dirs := directions[..];
      assert forall k :: 0 <= k < |dirs| ==> dirs[k] in multiset(dirs);
    }

    method Enter(x: int, y: int, visited: array2<bool>)
      requires Placed() && Full()
      requires visited.Length0 == rooms.Length0 && visited.Length1 == rooms.Length1
      requires 0 <= x < visited.Length1 && 0 <= y < visited.Length0 && !visited[y, x]
      requires forall r :: r in live && r !in Seen(visited) && r != rooms[y, x] ==> r.connections == []
      modifies visited
      ensures Growing(G(), old(Seen(visited)), rooms[y, x], visited)
      ensures Seen(visited) == old(Seen(visited)) + {rooms[y, x]} && rooms[y, x] !in old(Seen(visited))
    {
      hide GrewTree, Reach, Edges;
      ghost var seen0 := Seen(visited);
      visited[y, x] := true;
      assert Seen(visited) == seen0 + {rooms[y, x]};
      assert Seen(visited) - seen0 == {rooms[y, x]};
      SingletonTree<GridRoom>(G(), rooms[y, x]);
    }

    method Backtrack(x: int, y: int, visited: array2<bool>, xMax: int, yMax: int)
      requires Valid() && Full() && Size(xMax, yMax)
      requires visited.Length0 == yMax && visited.Length1 == xMax
      requires 0 <= x < xMax && 0 <= y < yMax && !visited[y, x]
      requires forall r :: r in live && r !in Seen(visited) && r != rooms[y, x] ==> r.connections == []
      modifies visited, live`connections
      ensures Valid()
      ensures Growing(old(G()), old(Seen(visited)), rooms[y, x], visited)
      ensures forall q :: q in live && Adjacent(rooms[y, x], q) ==> q in Seen(visited)
      decreases live - Seen(visited), 0
    {
      hide GrewTree, Reach, Edges, OnGrid, GraphOf, Adjacent, Growing;
      ghost var g0, seen0 := G(), Seen(visited);
      ghost var room: GridRoom := rooms[y, x];
      Enter(x, y, visited);
      var directions := RandomDirections();
      for i := 0 to |directions|
        invariant Valid() && seen0 + {room} <= Seen(visited)
        invariant Growing(g0, seen0, room, visited)
        invariant forall k :: 0 <= k < i ==> Looked(directions[k], room, live, Seen(visited))
      {
        var nx, ny := x + directions[i].0, y + directions[i].1;
        if 0 <= nx < xMax && 0 <= ny < yMax && !visited[ny, nx] {
          VisitNeighbour(x, y, nx, ny, visited, xMax, yMax, g0, seen0);
        }
      }
      AllLooked(directions, room, live, Seen(visited));
    }

    // In a full grid, a set of rooms closed under grid neighbourhood holds every room.
    lemma {:induction false} CellInClosedSet(N: set<GridRoom>, root: GridRoom, x: int, y: int)
      requires Placed() && Full() && root in N && N <= live
      requires forall r, q :: r in N && q in live && Adjacent(r, q) ==> q in N
      requires 0 <= x < rooms.Length1 && 0 <= y < rooms.Length0
      ensures rooms[y, x] in N
      decreases if x < root.x then root.x - x else x - root.x, if y < root.y then root.y - y else y - root.y
    {
      if x != root.x {
        var x' := if x < root.x then x + 1 else x - 1;
        CellInClosedSet(N, root, x', y);
        assert Adjacent(rooms[y, x'], rooms[y, x]);
      } else if y != root.y {
        var y' := if y < root.y then y + 1 else y - 1;
        CellInClosedSet(N, root, x, y');
        assert Adjacent(rooms[y', x], rooms[y, x]);
      }
    }

    // A spanning tree of the grid: every room reaches every room, with one edge (stored at both
    // ends) less than there are rooms.
    ghost predicate SpanningTree()
      reads this`live, live`connections
    {
      (forall s :: s in live ==> ConnectedFrom(G(), s)) && |Edges(G())| == 2 * (|live| - 1)
    }

    method GenerateMazeRecursiveBacktracking(xMax: int, yMax: int)
      requires Valid() && Full() && Size(xMax, yMax)
      requires forall r :: r in live ==> r.connections == []
      modifies live`connections
      ensures Valid() && SpanningTree()
    {
      hide GrewTree, Reach, Edges, OnGrid;
      var visited := new bool[yMax, xMax]((_, _) => false);
      ghost var g0 := G();
      assert Seen(visited) == {};
      var startX :| 0 <= startX < xMax;
      var startY :| 0 <= startY < yMax;
      Backtrack(startX, startY, visited, xMax, yMax);
      ghost var root: GridRoom := rooms[startY, startX];
      assert Seen(visited) - {} == Seen(visited);
      forall r | r in live
        ensures r in Seen(visited)
      {
        CellInClosedSet(Seen(visited), root, r.x, r.y);
      }
      assert Seen(visited) == live;
      TreeSpans(g0, root);
    }

    lemma SymmetricRooms()
      requires OnGrid(live)
      ensures Symmetric(G())
    {
    }

    lemma TreeSpans(g0: Graph<GridRoom>, root: GridRoom)
      requires Valid() && GrewTree(g0, G(), live, root)
      requires forall r :: r in g0 ==> g0[r] == {}
      ensures SpanningTree()
    {
      hide Reach, OnGrid, Placed, Extends;
      SymmetricRooms();
      assert Edges(g0) == {};
      hide Edges, Symmetric;
      forall s | s in live
        ensures ConnectedFrom(G(), s)
      {
        ConnectedFromAny(G(), root, s);
      }
    }

    // ---------- start and end ----------

    ghost predicate InCell(r: GridRoom, x: int, y: int) {
      r.x == x && r.y == y
    }

    // A candidate is chosen by as many of the possible draws as its weight says.
    method SelectWeightedRandom(candidates: seq<WeightedCandidate>) returns (c: WeightedCandidate, ghost draw: int, ghost at: nat)
      requires candidates != [] && forall i :: 0 <= i < |candidates| ==> candidates[i].weight >= 1
      ensures c in candidates && 0 <= draw < TotalWeight(candidates)
      ensures at < |candidates| && c == candidates[at]
      ensures TotalWeight(candidates[..at]) <= draw < TotalWeight(candidates[..at]) + c.weight
    {
      var totalWeight := 0;
      for i := 0 to |candidates|
        invariant totalWeight == TotalWeight(candidates[..i]) && totalWeight >= i
      {
        assert candidates[..i + 1][..i] == candidates[..i];
        totalWeight := totalWeight + candidates[i].weight;
      }
      assert candidates[..|candidates|] == candidates;
      var randomValue :| 0 <= randomValue < totalWeight;  // m.rand.Intn(totalWeight)
      var currentWeight := 0;
      for i := 0 to |candidates|
        invariant currentWeight == TotalWeight(candidates[..i]) && currentWeight <= randomValue
      {
        assert candidates[..i + 1][..i] == candidates[..i];
        currentWeight := currentWeight + candidates[i].weight;
        if randomValue < currentWeight {
          return candidates[i], randomValue, i;
        }
      }
      assert false;  // the fallback after the loop in the source is never reached
    }

    // The first loop of setStartAndEnd.
    method AvailableRooms(xMax: int, yMax: int) returns (available: seq<(int, int)>)
      requires Placed() && Size(xMax, yMax)
      ensures NoDuplicates(available) && |available| == |live|
      ensures forall p :: p in available ==> InGrid(p.0, p.1) && rooms[p.1, p.0] != null
    {
      available := [];
      ghost var counted: set<GridRoom> := {};
      for x := 0 to xMax
        invariant Listed(available, counted, x, 0)
      {
        for y := 0 to yMax
          invariant Listed(available, counted, x, y)
        {
          if rooms[y, x] != null {
            NextListed(available, counted, x, y);
            available := available + [(x, y)];
            counted := counted + {rooms[y, x]};
          }
        }
      }
      assert counted == live;
    }

    // The cells of the rooms before column x and, in it, before row y
    ghost predicate Listed(available: seq<(int, int)>, counted: set<GridRoom>, x: int, y: int)
      reads this`rooms, this`live, rooms
    {
      && NoDuplicates(available) && |available| == |counted| && counted <= live
      && (forall p :: p in available ==> InGrid(p.0, p.1) && rooms[p.1, p.0] != null && (p.0 < x || (p.0 == x && p.1 < y)))
      && (forall r :: r in live ==> (r in counted <==> r.x < x || (r.x == x && r.y < y)))
    }

    lemma NextListed(available: seq<(int, int)>, counted: set<GridRoom>, x: int, y: int)
      requires Placed() && Listed(available, counted, x, y) && InGrid(x, y) && rooms[y, x] != null
      ensures Listed(available + [(x, y)], counted + {rooms[y, x]}, x, y + 1)
    {
      NoDuplicatesLast(available + [(x, y)]);
      assert (available + [(x, y)])[..|available|] == available;
    }

    // The second loop: every cell but the start is a candidate, the heavier the further away.
    method WeightedCandidates(available: seq<(int, int)>) returns (candidates: seq<WeightedCandidate>)
      ensures forall i :: 0 <= i < |candidates| ==>
        candidates[i].weight == Abs(candidates[i].x - startX) + Abs(candidates[i].y - startY) + 1 &&
        (candidates[i].x, candidates[i].y) in available && (candidates[i].x != startX || candidates[i].y != startY)
      ensures forall p :: p in available && p != (startX, startY) ==>
        WeightedCandidate(p.0, p.1, Abs(p.0 - startX) + Abs(p.1 - startY) + 1) in candidates
    {
      candidates := [];
      for k := 0 to |available|
        invariant forall i :: 0 <= i < |candidates| ==>
          candidates[i].weight == Abs(candidates[i].x - startX) + Abs(candidates[i].y - startY) + 1 &&
          (candidates[i].x, candidates[i].y) in available && (candidates[i].x != startX || candidates[i].y != startY)
        invariant forall p :: p in available[..k] && p != (startX, startY) ==>
          WeightedCandidate(p.0, p.1, Abs(p.0 - startX) + Abs(p.1 - startY) + 1) in candidates
      {
        var (x, y) := available[k];
        assert available[..k + 1] == available[..k] + [available[k]];
        if x == startX && y == startY {
          continue;
        }
        var dist := Abs(x - startX) + Abs(y - startY);
        candidates := candidates + [WeightedCandidate(x, y, dist + 1)];
      }
      assert available[..|available|] == available;
    }

    method SetStartAndEnd(xMax: int, yMax: int)
      requires Valid() && Size(xMax, yMax)
      requires forall r :: r in live ==> !r.isStart && !r.isEnd
      modifies this`startX, this`startY, this`endX, this`endY, live`isStart, live`isEnd
      ensures live == {} ==> startX == old(startX) && startY == old(startY)
      ensures |live| <= 1 ==> endX == old(endX) && endY == old(endY)
      ensures live != {} ==> InGrid(startX, startY) && rooms[startY, startX] != null
      ensures |live| > 1 ==> InGrid(endX, endY) && rooms[endY, endX] != null && (startX != endX || startY != endY)
      ensures forall r :: r in live ==> (r.isStart <==> InCell(r, startX, startY))
      ensures forall r :: r in live ==> (r.isEnd <==> |live| > 1 && InCell(r, endX, endY))
    {
      hide OnGrid, NoDuplicates, Placed, InCell;
      var available := AvailableRooms(xMax, yMax);
      if |available| == 0 {
        return;
      }
      ghost var start, end := FirstTwo(available);
      var startIdx :| 0 <= startIdx < |available|;
      SetStart(available[startIdx].0, available[startIdx].1);
      if |available| == 1 {
        return;
      }
      var candidates := WeightedCandidates(available);
      if |candidates| > 0 {
        var selected, _, _ := SelectWeightedRandom(candidates);
        SetEnd(selected.x, selected.y);
      }
    }

    method SetStart(x: int, y: int)
      requires Placed() && InGrid(x, y) && rooms[y, x] != null
      requires forall r :: r in live ==> !r.isStart
      modifies this`startX, this`startY, live`isStart
      ensures startX == x && startY == y && forall r :: r in live ==> (r.isStart <==> InCell(r, x, y))
    {
      startX, startY := x, y;
      rooms[startY, startX].isStart := true;
    }

    method SetEnd(x: int, y: int)
      requires Placed() && InGrid(x, y) && rooms[y, x] != null
      requires forall r :: r in live ==> !r.isEnd
      modifies this`endX, this`endY, live`isEnd
      ensures endX == x && endY == y && forall r :: r in live ==> (r.isEnd <==> InCell(r, x, y))
    {
      endX, endY := x, y;
      rooms[endY, endX].isEnd := true;
    }

    // Of two cells one is not the start.
    lemma FirstTwo(available: seq<(int, int)>) returns (p: (int, int), q: (int, int))
      requires NoDuplicates(available) && |available| > 0
      ensures p in available && q in available && (|available| > 1 ==> p != q)
    {
      p, q := available[0], available[|available| - 1];
    }

    // ---------- breadth-first searches ----------

    predicate InGrid(x: int, y: int)
      reads this`rooms
    {
      0 <= x < rooms.Length1 && 0 <= y < rooms.Length0
    }

    ghost predicate Distances(s: GridRoom)
      reads this`live, live`connections, live`distanceFromStart
    {
      forall r: GridRoom :: r in live && Reach(G(), s, r) ==>
        r.distanceFromStart >= 0 && IsDist(G(), s, r, r.distanceFromStart)
    }

    // The inner loop: queue and label the connections of current not seen before.
    method VisitConnections(current: GridRoom, queue0: seq<GridRoom>, visited0: set<GridRoom>,
                            ghost start: GridRoom, ghost d0: map<GridRoom, nat>)
      returns (queue: seq<GridRoom>, visited: set<GridRoom>, ghost d: map<GridRoom, nat>)
      requires Valid() && current in live && visited0 == d0.Keys && visited0 <= live
      requires forall r: GridRoom :: r in d0 ==> r.distanceFromStart == d0[r]
      requires current in d0 && BfsAt(G(), start, d0, queue0, current)
      modifies live`distanceFromStart
      ensures visited == d.Keys && visited0 <= visited <= live
      ensures forall r: GridRoom :: r in d ==> r.distanceFromStart == d[r]
      ensures visited == visited0 ==> queue == queue0
      ensures Bfs(G(), start, d, queue)
    {
      hide *;
      queue, visited, d := queue0, visited0, d0;
      ghost var g := G();
      ConnectionsOf(g, current);
      var connections := current.connections;
      for i := 0 to |connections|
        invariant visited == d.Keys && visited0 + {current} <= visited <= live
        invariant forall r: GridRoom :: r in d ==> r.distanceFromStart == d[r]
        invariant visited == visited0 ==> queue == queue0
        invariant BfsAt(g, start, d, queue, current)
        invariant forall k :: 0 <= k < i ==> connections[k] in visited
      {
        var conn := connections[i];
        if conn !in visited {
          BfsVisit(g, start, d, queue, current, conn);
          visited := visited + {conn};
          conn.distanceFromStart := current.distanceFromStart + 1;
          d := d[conn := d[current] + 1];
          queue := queue + [conn];
        }
      }
      BfsDone(g, start, d, queue, current);
    }

    method CalculateDistancesFromStart()
      requires Valid() && InGrid(startX, startY)
      modifies live`distanceFromStart
      ensures rooms[startY, startX] != null ==> Distances(rooms[startY, startX])
    {
      hide Labelled, QueueOrdered, Settled, Bfs, BfsAt, ReachIn, Reach, IsDist, OnGrid, GraphOf, Distances;
      if rooms[startY, startX] == null {
        return;
      }
      var start: GridRoom := rooms[startY, startX];
      ghost var d: map<GridRoom, nat> := map[start := 0];
      LiveIsVertex(start);
      BfsStart(G(), start);
      var queue := [start];
      var visited := {start};
      start.distanceFromStart := 0;
      while |queue| > 0
        invariant visited == d.Keys && visited <= live
        invariant forall r: GridRoom :: r in d ==> r.distanceFromStart == d[r]
        invariant Bfs(G(), start, d, queue)
        decreases live - visited, |queue|
      {
        BfsTake(G(), start, d, queue);
        var current := queue[0];
        queue, visited, d := VisitConnections(current, queue[1..], visited, start, d);
      }
      BfsFinished(G(), start, d);
      DistancesFrom(start, d);
    }

    lemma LiveIsVertex(r: GridRoom)
      requires r in live
      ensures r in G()
    {
    }

    lemma ConnectionsOf(g: Graph<GridRoom>, r: GridRoom)
      requires Valid() && g == G() && r in live
      ensures r in g && g[r] == set c | c in r.connections
      ensures forall c :: c in r.connections ==> c in live && c in g && c != r
    {
    }

    lemma DistancesFrom(start: GridRoom, d: map<GridRoom, nat>)
      requires forall v: GridRoom :: v in d <==> Reach(G(), start, v)
      requires forall v: GridRoom :: v in d ==> IsDist(G(), start, v, d[v])
      requires forall v: GridRoom :: v in d ==> v.distanceFromStart == d[v]
      ensures Distances(start)
    {
      forall r: GridRoom | r in live && Reach(G(), start, r)
        ensures r.distanceFromStart >= 0 && IsDist(G(), start, r, r.distanceFromStart)
      {
        assert r in d;
      }
    }

    // Follow the parents back from end.
    method Unwind(ghost g: Graph<GridRoom>, ghost start: GridRoom, end: GridRoom,
                  ghost d: map<GridRoom, nat>, parent: map<GridRoom, GridRoom>)
      returns (path: seq<GridRoom>)
      requires Labelled(g, start, d) && Parents(g, start, d, parent) && end in d
      ensures WalkBetween(g, path, start, end) && |path| == d[end] + 1
      ensures forall i :: 0 <= i < |path| ==> path[i] in d && d[path[i]] == i
    {
      hide Labelled, ReachIn, Walk;
      LabelledVertices(g, start, d);
      path := [];
      var room: GridRoom? := end;
      while room != null
        invariant room != null ==> room in d
        invariant |path| == d[end] + 1 - (if room == null then 0 else d[room] + 1)
        invariant forall i :: 0 <= i < |path| ==> path[i] in d && d[path[i]] == d[end] + 1 - |path| + i
        invariant if path == [] then room == end else path[|path| - 1] == end
        invariant path != [] ==> Walk(g, path) && (if room == null then path[0] == start else path[0] in g[room])
        invariant room == null ==> path != []
        decreases if room == null then 0 else d[room] + 1
      {
        WalkPrepend<GridRoom>(g, room, path);
        path := [room] + path;
        room := if room in parent then parent[room] else null;
      }
    }

    lemma LabelledVertices(g: Graph<GridRoom>, start: GridRoom, d: map<GridRoom, nat>)
      requires Labelled(g, start, d)
      ensures start in d && d[start] == 0 && d.Keys <= g.Keys
    {
    }

    // The search of findCriticalPath: a shortest path, or [] when end cannot be reached.
    method ShortestPath(start: GridRoom, end: GridRoom) returns (path: seq<GridRoom>)
      requires Valid() && start in live && end in live
      ensures path == [] <==> !Reach(G(), start, end)
      ensures path != [] ==> WalkBetween(G(), path, start, end) && IsDist(G(), start, end, |path| - 1)
      ensures NoDuplicates(path)
    {
      hide Labelled, QueueOrdered, Settled, Bfs, BfsAt, ReachIn, Parents, OnGrid, GraphOf, Valid;
      ghost var g: Graph<GridRoom>, d: map<GridRoom, nat> := G(), map[start := 0];
      LiveIsVertex(start);
      BfsStart(g, start);
      var queue := [start];
      var visited := {start};
      var parent: map<GridRoom, GridRoom> := map[];
      ParentsStart(g, start);
      while |queue| > 0
        invariant visited == d.Keys && visited <= live
        invariant Bfs(g, start, d, queue) && Parents(g, start, d, parent)
        invariant end in d ==> end in queue
        decreases live - visited, |queue|
      {
        BfsTake(g, start, d, queue);
        var current := queue[0];
        if current == end {
          BfsFront(g, start, d, queue);
          LabelledOf(g, start, d, queue);
          path := Unwind(g, start, end, d, parent);
          assert Reach(g, start, end);
          return;
        }
        queue, visited, parent, d := VisitWithParents(current, queue[1..], visited, parent, start, end, d);
      }
      BfsFinished(g, start, d);
      path := [];
    }

    lemma ParentsStart(g: Graph<GridRoom>, start: GridRoom)
      ensures Parents<GridRoom>(g, start, map[start := 0], map[])
    {
    }

    lemma LabelledOf(g: Graph<GridRoom>, start: GridRoom, d: map<GridRoom, nat>, queue: seq<GridRoom>)
      requires Bfs(g, start, d, queue)
      ensures Labelled(g, start, d)
      ensures forall v: GridRoom :: v in d ==> ReachIn(g, start, v, d[v])
    {
    }

    method VisitWithParents(current: GridRoom, queue0: seq<GridRoom>, visited0: set<GridRoom>, parent0: map<GridRoom, GridRoom>,
                            ghost start: GridRoom, ghost end: GridRoom, ghost d0: map<GridRoom, nat>)
      returns (queue: seq<GridRoom>, visited: set<GridRoom>, parent: map<GridRoom, GridRoom>, ghost d: map<GridRoom, nat>)
      requires Valid() && current in live && visited0 == d0.Keys && visited0 <= live
      requires current in d0 && start in d0 && BfsAt(G(), start, d0, queue0, current) && Parents(G(), start, d0, parent0)
      requires current != end && (end in d0 ==> end in [current] + queue0)
      ensures visited == d.Keys && visited0 <= visited <= live
      ensures visited == visited0 ==> queue == queue0
      ensures Bfs(G(), start, d, queue) && Parents(G(), start, d, parent)
      ensures end in d ==> end in queue
    {
      hide *;
      queue, visited, parent, d := queue0, visited0, parent0, d0;
      ghost var g := G();
      ConnectionsOf(g, current);
      assert end in [current] + queue0 ==> end in queue0;
      var connections := current.connections;
      for i := 0 to |connections|
        invariant visited == d.Keys && visited0 + {current, start} <= visited <= live
        invariant visited == visited0 ==> queue == queue0
        invariant BfsAt(g, start, d, queue, current) && Parents(g, start, d, parent)
        invariant forall k :: 0 <= k < i ==> connections[k] in visited
        invariant end in d ==> end in queue
      {
        var conn := connections[i];
        if conn !in visited {
          BfsVisit(g, start, d, queue, current, conn);
          ParentsVisit(g, start, d, parent, current, conn);
          visited := visited + {conn};
          parent := parent[conn := current];
          d := d[conn := d[current] + 1];
          queue := queue + [conn];
        }
      }
      BfsDone(g, start, d, queue, current);
    }

    // A shortest walk from the start room to the end room, its rooms numbered 1, 2, 3, ...
    ghost predicate CriticalPathFound(start: GridRoom, end: GridRoom)
      reads this`criticalPath, this`live, live`connections, criticalPath`step
    {
      && WalkBetween(G(), criticalPath, start, end)
      && IsDist(G(), start, end, |criticalPath| - 1)
      && (forall i :: 0 <= i < |criticalPath| ==> criticalPath[i] in live && criticalPath[i].step == i + 1)
    }

    // The source indexes the grid at the end it remembers, which may be that of an earlier, larger maze.
    method FindCriticalPath() returns (panics: bool)
      requires Valid() && InGrid(startX, startY)
      modifies this`criticalPath, live`step
      ensures panics <==> rooms[startY, startX] != null && !InGrid(endX, endY)
      ensures !panics && rooms[startY, startX] != null && rooms[endY, endX] != null &&
              Reach<GridRoom>(G(), rooms[startY, startX], rooms[endY, endX]) ==>
                CriticalPathFound(rooms[startY, startX], rooms[endY, endX])
      ensures panics || rooms[startY, startX] == null || rooms[endY, endX] == null ||
              !Reach<GridRoom>(G(), rooms[startY, startX], rooms[endY, endX]) ==>
                criticalPath == old(criticalPath) && forall r :: r in live ==> r.step == old(r.step)
      ensures forall r :: r in live && r !in criticalPath ==> r.step == old(r.step)
    {
      hide Valid, Placed, OnGrid, GraphOf, Reach, ReachIn, IsDist, Walk, NoDuplicates;
      if rooms[startY, startX] == null {
        return false;
      }
      if !InGrid(endX, endY) {
        return true;
      }
      if rooms[endY, endX] == null {
        return false;
      }
      CellIsLive(startX, startY);
      CellIsLive(endX, endY);
      var path := ShortestPath(rooms[startY, startX], rooms[endY, endX]);
      if path == [] {
        return false;
      }
      VerticesAreLive(path);
      NumberSteps(path);
      criticalPath := path;
      return false;
    }

    method NumberSteps(path: seq<GridRoom>)
      requires NoDuplicates(path) && forall i :: 0 <= i < |path| ==> path[i] in live
      modifies live`step
      ensures forall k :: 0 <= k < |path| ==> path[k].step == k + 1
      ensures forall r :: r in live && r !in path ==> r.step == old(r.step)
    {
      for i := 0 to |path|
        invariant forall k :: 0 <= k < i ==> path[k].step == k + 1
        invariant forall r :: r in live && r !in path[..i] ==> r.step == old(r.step)
      {
        path[i].step := i + 1;
      }
      assert path[..|path|] == path;
    }

    lemma CellIsLive(x: int, y: int)
      requires Valid() && InGrid(x, y) && rooms[y, x] != null
      ensures rooms[y, x] in live
    {
    }

    lemma VerticesAreLive(path: seq<GridRoom>)
      requires Walk(G(), path)
      ensures forall i :: 0 <= i < |path| ==> path[i] in live
    {
    }

    // ---------- extra connections ----------

    // The graph is g with an edge between p and q added.
    ghost predicate Joined(g: Graph<GridRoom>, p: GridRoom, q: GridRoom)
      reads this`live, live`connections
    {
      p in g && q in g && p != q && G() == AddEdge(g, p, q)
    }

    // One direction: connect the two rooms if both have less than three connections.
    method TryConnect(x: int, y: int, nx: int, ny: int) returns (connected: bool)
      requires Valid() && InGrid(x, y) && InGrid(nx, ny) && rooms[y, x] != null && rooms[ny, nx] != null
      requires Adjacent(rooms[y, x], rooms[ny, nx])
      modifies live`connections
      ensures Valid() && Extends(old(G()), G())
      ensures |Edges(G())| == |Edges(old(G()))| + if connected then 2 else 0
      ensures connected <==> !old(rooms[y, x].IsConnectedTo(rooms[ny, nx])) && old(|rooms[y, x].connections| < 3 && |rooms[ny, nx].connections| < 3)
      ensures connected ==> Joined(old(G()), rooms[y, x], rooms[ny, nx])
      ensures !connected ==> G() == old(G()) && forall r :: r in live ==> r.connections == old(r.connections)
      ensures forall r :: r in live ==> |r.connections| <= 3 || r.connections == old(r.connections)
    {
      hide OnGrid, GraphOf, Edges, AddEdge;
      var p: GridRoom, q: GridRoom := rooms[y, x], rooms[ny, nx];
      if !p.IsConnectedTo(q) {
        if |p.connections| < 3 && |q.connections| < 3 {
          ghost var g: Graph<GridRoom> := G();
          LiveIsVertex(p);
          LiveIsVertex(q);
          Connect(p, q);
          AddEdgeCount(g, p, q);
          AddEdgeExtends(g, g, p, q);
          return true;
        }
      }
      return false;
    }

    // As many attempts as there are tens of cells. So at most a tenth as many connections are added as there
    // are cells, and a room that gets one has at most three afterwards.
    method AddAdditionalConnections(xMax: int, yMax: int) returns (ghost stages: seq<Graph<GridRoom>>, ghost drawn: seq<GridRoom?>)
      requires Valid() && Size(xMax, yMax)
      modifies live`connections
      ensures Valid() && Extends(old(G()), G())
      ensures |drawn| == xMax * yMax / 10 && Grows(stages, drawn) && stages[0] == old(G()) && stages[|drawn|] == G()
      ensures Full() ==> forall i :: 0 <= i < |drawn| ==> drawn[i] != null
      ensures |Edges(G())| <= |Edges(old(G()))| + 2 * (xMax * yMax / 10)
      ensures forall r :: r in live ==> |r.connections| <= 3 || r.connections == old(r.connections)
    {
      hide OnGrid, GraphOf, Edges, GridRoom.IsConnectedTo, Grows, Attempt;
      var connectionAttempts := (xMax * yMax) / 10;
      stages, drawn := [G()], [];
      NoAttempts(G());
      for i := 0 to connectionAttempts
        invariant Valid() && Extends(old(G()), G())
        invariant |drawn| == i && Grows(stages, drawn) && |stages| == i + 1 && stages[0] == old(G()) && stages[i] == G()
        invariant Full() ==> forall k :: 0 <= k < i ==> drawn[k] != null
        invariant |Edges(G())| <= |Edges(old(G()))| + 2 * i
        invariant forall r :: r in live ==> |r.connections| <= 3 || r.connections == old(r.connections)
      {
        var x :| 0 <= x < xMax;
        var y :| 0 <= y < yMax;
        ghost var g := G();
        if rooms[y, x] != null {
          JoinAt(x, y, xMax, yMax);
        } else {
          NoAttempt(g);
        }
        GrowsNext(stages, drawn, G(), rooms[y, x]);
        stages, drawn := stages + [G()], drawn + [rooms[y, x]];
      }
    }

    lemma NoAttempts(g: Graph<GridRoom>)
      ensures Grows([g], [])
    {
    }

    lemma NoAttempt(g: Graph<GridRoom>)
      ensures Attempt(g, g, null)
    {
    }

    // The body of the loop for a room: the first joinable neighbour in a random order of the directions.
    method JoinAt(x: int, y: int, xMax: int, yMax: int)
      requires Valid() && Size(xMax, yMax) && InGrid(x, y) && rooms[y, x] != null
      modifies live`connections
      ensures Valid() && Extends(old(G()), G()) && Attempt(old(G()), G(), rooms[y, x])
      ensures |Edges(G())| <= |Edges(old(G()))| + 2
      ensures forall r :: r in live ==> |r.connections| <= 3 || r.connections == old(r.connections)
    {
      hide OnGrid, GraphOf, Edges, GridRoom.IsConnectedTo, Attempt, Joinable, AddEdge;
      ghost var room: GridRoom, g: Graph<GridRoom> := rooms[y, x], G();
      CellIsLive(x, y);
      LiveIsVertex(room);
      var directions := RandomDirections();
      for k := 0 to |directions|
        invariant Valid() && G() == g && forall r :: r in live ==> r.connections == old(r.connections)
        invariant forall i :: 0 <= i < k ==> NotThere(g, room, directions[i])
      {
        var nx, ny := x + directions[k].0, y + directions[k].1;
        if 0 <= nx < xMax && 0 <= ny < yMax && rooms[ny, nx] != null {
          InDirection(room, x, y, directions[k], nx, ny);
          JoinableIs(room, rooms[ny, nx]);
          var connected := TryConnect(x, y, nx, ny);
          if connected {
            Joins(g, G(), room, rooms[ny, nx]);
            return;
          }
        }
        NoneThere(g, room, x, y, directions[k], nx, ny);
      }
      CannotJoin(g, room, directions);
    }

    // No neighbour in this direction can be joined.
    ghost predicate NotThere(g: Graph<GridRoom>, room: GridRoom, dir: (int, int)) {
      forall q :: q in g && q.x == room.x + dir.0 && q.y == room.y + dir.1 ==> !Joinable(g, room, q)
    }

    lemma InDirection(room: GridRoom, x: int, y: int, dir: (int, int), nx: int, ny: int)
      requires Valid() && InGrid(x, y) && rooms[y, x] == room && IsDirection(dir) && nx == x + dir.0 && ny == y + dir.1
      requires InGrid(nx, ny) && rooms[ny, nx] != null
      ensures room in live && rooms[ny, nx] in live && rooms[ny, nx] != room && Adjacent(room, rooms[ny, nx])
    {
      hide OnGrid;
    }

    lemma JoinableIs(p: GridRoom, q: GridRoom)
      requires Valid() && p in live && q in live && p != q && Adjacent(p, q)
      ensures Joinable(G(), p, q) <==> !p.IsConnectedTo(q) && |p.connections| < 3 && |q.connections| < 3
    {
      RoomDegree(p);
      RoomDegree(q);
      if p.IsConnectedTo(q) {
        var c :| c in p.connections && c.x == q.x && c.y == q.y;
        assert rooms[c.y, c.x] == c && rooms[q.y, q.x] == q;
      }
    }

    lemma RoomDegree(r: GridRoom)
      requires OnGrid(live) && r in live
      ensures |G()[r]| == |r.connections|
    {
      assert NoDuplicates(r.connections);
      SetOfDistinct<GridRoom>(r.connections);
    }

    lemma NoneThere(g: Graph<GridRoom>, room: GridRoom, x: int, y: int, dir: (int, int), nx: int, ny: int)
      requires Valid() && g == G() && InGrid(x, y) && rooms[y, x] == room && nx == x + dir.0 && ny == y + dir.1
      requires InGrid(nx, ny) && rooms[ny, nx] != null ==> !Joinable(g, room, rooms[ny, nx])
      ensures NotThere(g, room, dir)
    {
      hide Joinable, OnGrid;
    }

    lemma Joins(g: Graph<GridRoom>, h: Graph<GridRoom>, p: GridRoom, q: GridRoom)
      requires q in g && Joinable(g, p, q) && h == AddEdge<GridRoom>(g, p, q)
      ensures Attempt(g, h, p)
    {
      hide AddEdge;
      assert CanJoin(g, p);
    }

    lemma CannotJoin(g: Graph<GridRoom>, room: GridRoom, dirs: seq<(int, int)>)
      requires multiset(dirs) == multiset{(0, 1), (1, 0), (0, -1), (-1, 0)}
      requires forall i :: 0 <= i < |dirs| ==> NotThere(g, room, dirs[i])
      ensures Attempt(g, g, room)
    {
      forall q | q in g && Adjacent(room, q)
        ensures !Joinable(g, room, q)
      {
        var dir := (q.x - room.x, q.y - room.y);
        assert dir in multiset(dirs);
        var i :| 0 <= i < |dirs| && dirs[i] == dir;
        assert NotThere(g, room, dirs[i]);
      }
    }

    lemma AddEdgeExtends(g0: Graph<GridRoom>, g1: Graph<GridRoom>, p: GridRoom, q: GridRoom)
      requires Extends(g0, g1) && p in g1 && q in g1 && p != q
      ensures Extends(g0, AddEdge(g1, p, q))
    {
    }

    // ---------- removing rooms ----------

    // The search of areConnectedWithoutRoom decides reachability in the graph without the excluded room.
    method AreConnectedWithoutRoom(room1: GridRoom, room2: GridRoom, excludeRoom: GridRoom) returns (connected: bool)
      requires Valid() && room1 in live && room2 in live && excludeRoom in live
      requires room1 != excludeRoom && room2 != excludeRoom
      ensures connected <==> Reach(Remove(G(), excludeRoom), room1, room2)
    {
      hide Labelled, QueueOrdered, Settled, Bfs, BfsAt, ReachIn, Reach, OnGrid, GraphOf, Valid;
      ghost var g: Graph<GridRoom>, d: map<GridRoom, nat> := Remove(G(), excludeRoom), map[room1 := 0];
      LiveIsVertex(room1);
      if room1 == room2 {
        ReachRefl(g, room1);
        return true;
      }
      BfsStart(g, room1);
      var visited := {room1, excludeRoom};
      var queue := [room1];
      while |queue| > 0
        invariant visited == d.Keys + {excludeRoom} && excludeRoom !in d && visited <= live
        invariant Bfs(g, room1, d, queue)
        invariant room2 in d ==> room2 in queue
        decreases live - visited, |queue|
      {
        BfsTake(g, room1, d, queue);
        var current := queue[0];
        if current == room2 {
          LabelledOf(g, room1, d, queue);
          ReachedIn(g, room1, room2, d[room2]);
          return true;
        }
        queue, visited, d := VisitWithout(current, queue[1..], visited, excludeRoom, room1, room2, d);
      }
      BfsFinished(g, room1, d);
      return false;
    }

    lemma ReachedIn(g: Graph<GridRoom>, a: GridRoom, b: GridRoom, n: nat)
      requires ReachIn(g, a, b, n)
      ensures Reach(g, a, b)
    {
    }

    lemma ConnectionsWithout(g: Graph<GridRoom>, r: GridRoom, x: GridRoom)
      requires Valid() && g == Remove(G(), x) && r in live && r != x
      ensures r in g && g[r] == set c | c in r.connections && c != x
      ensures forall c :: c in r.connections ==> c in live && c != r && (c != x ==> c in g)
    {
    }

    method VisitWithout(current: GridRoom, queue0: seq<GridRoom>, visited0: set<GridRoom>, excludeRoom: GridRoom,
                        ghost start: GridRoom, ghost end: GridRoom, ghost d0: map<GridRoom, nat>)
      returns (queue: seq<GridRoom>, visited: set<GridRoom>, ghost d: map<GridRoom, nat>)
      requires Valid() && current in live && visited0 == d0.Keys + {excludeRoom} && excludeRoom !in d0 && visited0 <= live
      requires current in d0 && BfsAt(Remove(G(), excludeRoom), start, d0, queue0, current)
      requires current != end && end != excludeRoom && (end in d0 ==> end in [current] + queue0)
      ensures visited == d.Keys + {excludeRoom} && excludeRoom !in d && visited0 <= visited <= live
      ensures visited == visited0 ==> queue == queue0
      ensures Bfs(Remove(G(), excludeRoom), start, d, queue)
      ensures end in d ==> end in queue
    {
      hide *;
      queue, visited, d := queue0, visited0, d0;
      ghost var g := Remove(G(), excludeRoom);
      ConnectionsWithout(g, current, excludeRoom);
      assert end in [current] + queue0 ==> end in queue0;
      var connections := current.connections;
      for i := 0 to |connections|
        invariant visited == d.Keys + {excludeRoom} && excludeRoom !in d && visited0 <= visited <= live && current in d
        invariant visited == visited0 ==> queue == queue0
        invariant BfsAt(g, start, d, queue, current)
        invariant forall k :: 0 <= k < i ==> connections[k] in visited
        invariant end in d ==> end in queue
      {
        var conn := connections[i];
        if conn !in visited {
          BfsVisit(g, start, d, queue, current, conn);
          visited := visited + {conn};
          d := d[conn := d[current] + 1];
          queue := queue + [conn];
        }
      }
      BfsDone(g, start, d, queue, current);
    }

    // The outer loop of removeRoom: every connection back to room is cut.
    method Detach(room: GridRoom)
      requires OnGrid(live) && room in live
      modifies live`connections
      ensures forall r :: r in live ==> r.connections == Without(old(r.connections), room)
    {
      var connections := room.connections;
      for k := 0 to |connections|
        invariant forall r :: r in live && r in connections[..k] ==> r.connections == Without(old(r.connections), room)
        invariant forall r :: r in live && r !in connections[..k] ==> r.connections == old(r.connections)
      {
        assert connections[..k + 1] == connections[..k] + [connections[k]];
        connections[k].CutConnection(room);
      }
      assert connections[..|connections|] == connections;
      forall r | r in live && r !in connections
        ensures r.connections == Without(old(r.connections), room)
      {
        WithoutAbsent(old(r.connections), room);
      }
    }

    twostate lemma DetachedIsRemoved(room: GridRoom)
      requires old(OnGrid(live)) && old(live) == live && room in live
      requires forall r :: r in live ==> r.connections == Without(old(r.connections), room)
      ensures OnGrid(live - {room})
      ensures GraphOf(live - {room}) == Remove(old(G()), room)
    {
      hide NoDuplicates, Without, Remove;
      forall r | r in live
        ensures NoDuplicates(r.connections) && forall c :: c in r.connections <==> c in old(r.connections) && c != room
      {
        WithoutElements(old(r.connections), room);
      }
      forall r | r in live && r != room
        ensures GraphOf(live - {room})[r] == old(G())[r] - {room}
      {
      }
      RemoveIs(old(G()), room, GraphOf(live - {room}));
    }

    lemma RemoveIs(g: Graph<GridRoom>, room: GridRoom, h: Graph<GridRoom>)
      requires h.Keys == g.Keys - {room} && forall r :: r in h ==> h[r] == g[r] - {room}
      ensures h == Remove(g, room)
    {
    }

    method RemoveRoom(x: int, y: int)
      requires Valid() && InGrid(x, y)
      modifies this`live, rooms, live`connections
      ensures Valid() && rooms[y, x] == null
      ensures forall i, j :: 0 <= i < rooms.Length1 && 0 <= j < rooms.Length0 && (i != x || j != y) ==> rooms[j, i] == old(rooms[j, i])
      ensures old(rooms[y, x]) == null ==> live == old(live) && G() == old(G())
      ensures old(rooms[y, x]) != null ==> live == old(live) - {old(rooms[y, x])} && G() == Remove<GridRoom>(old(G()), old(rooms[y, x]))
    {
      hide OnGrid, GraphOf;
      if rooms[y, x] == null {
        return;
      }
      var room: GridRoom := rooms[y, x];
      Detach(room);
      DetachedIsRemoved(room);
      live := live - {room};
      rooms[y, x] := null;
    }

    method CanRemoveWithoutDisconnectingPath(x: int, y: int) returns (ok: bool)
      requires Valid() && InGrid(x, y)
      ensures ok <==> rooms[y, x] != null && rooms[y, x].step <= 0 && Bypassed<GridRoom>(G(), rooms[y, x])
    {
      hide Reach, ReachIn, OnGrid, GraphOf;
      if rooms[y, x] == null {
        return false;
      }
      var room: GridRoom := rooms[y, x];
      ConnectionsOf(G(), room);
      if room.step > 0 {
        return false;
      }
      if |room.connections| > 1 {
        for i := 0 to |room.connections|
          invariant forall a, b :: 0 <= a < i && 0 <= b < |room.connections| && a != b ==>
            BothWays(room, room.connections[a], room.connections[b])
        {
          for j := 0 to |room.connections|
            invariant forall b :: 0 <= b < j && i != b ==> BothWays(room, room.connections[i], room.connections[b])
          {
            if i != j {
              var connected := AreConnectedWithoutRoom(room.connections[i], room.connections[j], room);
              if !connected {
                return false;
              }
            }
          }
        }
      }
      PairsSuffice(room);
      return true;
    }

    ghost predicate BothWays(room: GridRoom, u: GridRoom, v: GridRoom)
      reads this`live, live`connections
    {
      Reach(Remove(G(), room), u, v)
    }

    lemma PairsSuffice(room: GridRoom)
      requires Valid() && room in live
      requires |room.connections| > 1 ==>
        forall a, b :: 0 <= a < |room.connections| && 0 <= b < |room.connections| && a != b ==>
          BothWays(room, room.connections[a], room.connections[b])
      ensures Bypassed(G(), room)
    {
      hide Reach, ReachIn;
      var g: Graph<GridRoom>, h: Graph<GridRoom> := G(), Remove(G(), room);
      forall u: GridRoom, v: GridRoom | u in g[room] && v in g[room] && u in g && v in g && u != room && v != room
        ensures Reach(h, u, v)
      {
        var a :| 0 <= a < |room.connections| && room.connections[a] == u;
        var b :| 0 <= b < |room.connections| && room.connections[b] == v;
        if a == b {
          ReachRefl(h, u);
        } else {
          assert BothWays(room, room.connections[a], room.connections[b]);
        }
      }
    }

    // What room removal must leave alone: start reaches everything, and the path is still a walk.
    ghost predicate PathKept(start: GridRoom, end: GridRoom)
      reads this`criticalPath, this`live, live`connections
    {
      start in live && ConnectedFrom(G(), start) && WalkBetween(G(), criticalPath, start, end)
    }

    lemma RemovalKeepsPath(g: Graph<GridRoom>, start: GridRoom, end: GridRoom, room: GridRoom)
      requires room in g && room !in criticalPath && Symmetric(g)
      requires start in g && ConnectedFrom(g, start) && WalkBetween(g, criticalPath, start, end)
      requires Bypassed(g, room)
      ensures start != room && ConnectedFrom(Remove(g, room), start)
      ensures WalkBetween(Remove(g, room), criticalPath, start, end)
    {
      hide Bypassed, ConnectedFrom;
      RemoveKeepsConnected(g, start, room);
    }

    method RemoveRoomsProtectingPath(xMax: int, yMax: int, ghost start: GridRoom, ghost end: GridRoom)
      returns (ghost removed: seq<GridRoom>)
      requires Valid() && Size(xMax, yMax) && PathKept(start, end)
      modifies this`live, rooms, live`connections
      ensures Valid() && PathKept(start, end) && live <= old(live) && Survives(old(G()), G())
      ensures Cuts(old(G()), criticalPath, removed) && G() == RemoveAll(old(G()), removed)
      ensures forall r :: r in removed ==> r.step <= 0
    {
      hide OnGrid, GraphOf, Reach, ReachIn, Bypassed, ConnectedFrom, Walk, Survives, Cuts, RemoveAll, PathKept;
      ghost var g0 := G();
      SurvivesItself(g0);
      removed := [];
      NothingCut(g0);
      var criticalPathSet := set r | r in criticalPath;
      for x := 0 to xMax
        invariant Valid() && PathKept(start, end) && live <= old(live) && Survives(g0, G())
        invariant Cuts(g0, criticalPath, removed) && G() == RemoveAll(g0, removed)
        invariant forall i :: 0 <= i < |removed| ==> removed[i].step <= 0 && Before(removed[i], x, 0)
      {
        for y := 0 to yMax
          invariant Valid() && PathKept(start, end) && live <= old(live) && Survives(g0, G())
          invariant Cuts(g0, criticalPath, removed) && G() == RemoveAll(g0, removed)
          invariant forall i :: 0 <= i < |removed| ==> removed[i].step <= 0 && Before(removed[i], x, y)
        {
          if rooms[y, x] == null || rooms[y, x] in criticalPathSet {
            continue;
          }
          var drop: bool := *;  // m.rand.Float32() < 0.5
          if drop {
            var ok := CanRemoveWithoutDisconnectingPath(x, y);
            if ok {
              DropKeeps(g0, removed, rooms[y, x], x, y, start, end);
              removed := removed + [rooms[y, x]];
              DropRoom(x, y, start, end);
            }
          }
        }
      }
    }

    method DropRoom(x: int, y: int, ghost start: GridRoom, ghost end: GridRoom)
      requires Valid() && InGrid(x, y) && rooms[y, x] != null && rooms[y, x] !in criticalPath
      requires PathKept(start, end) && Bypassed<GridRoom>(G(), rooms[y, x])
      modifies this`live, rooms, live`connections
      ensures Valid() && PathKept(start, end) && live <= old(live)
      ensures G() == Remove<GridRoom>(old(G()), old(rooms[y, x]))
    {
      hide OnGrid, GraphOf, Reach, ReachIn, Bypassed, ConnectedFrom, Walk;
      SymmetricRooms();
      LiveIsVertex(rooms[y, x]);
      LiveIsVertex(start);
      RemovalKeepsPath(G(), start, end, rooms[y, x]);
      RemoveRoom(x, y);
    }

    lemma NothingCut(g: Graph<GridRoom>)
      ensures Cuts(g, criticalPath, []) && RemoveAll(g, []) == g
    {
    }

    lemma DropKeeps(g0: Graph<GridRoom>, removed: seq<GridRoom>, room: GridRoom, x: int, y: int, start: GridRoom, end: GridRoom)
      requires Valid() && InGrid(x, y) && rooms[y, x] == room && room !in criticalPath && Bypassed(G(), room)
      requires Cuts(g0, criticalPath, removed) && G() == RemoveAll(g0, removed) && Survives(g0, G())
      requires forall i :: 0 <= i < |removed| ==> Before(removed[i], x, y)
      ensures Cuts(g0, criticalPath, removed + [room]) && RemoveAll(g0, removed + [room]) == Remove(G(), room)
      ensures Survives(g0, Remove(G(), room)) && Before(room, x, y + 1) && Before(room, x + 1, 0)
      ensures forall i :: 0 <= i < |removed| ==> Before(removed[i], x, y + 1)
    {
      hide OnGrid, GraphOf, Bypassed, Cuts, RemoveAll, Survives;
      CellIsLive(x, y);
      LiveIsVertex(room);
      CutsNext(g0, criticalPath, removed, room);
      RemovalSurvives(g0, G(), room);
    }

    lemma SurvivesItself(g: Graph<GridRoom>)
      ensures Survives(g, g)
    {
    }

    lemma RemovalSurvives(g0: Graph<GridRoom>, g: Graph<GridRoom>, room: GridRoom)
      requires Survives(g0, g)
      ensures Survives(g0, Remove(g, room))
    {
      RemoveSurvives(g, room);
      SurvivesTwice(g0, g, Remove(g, room));
    }

    // The search of removeOrphanedRooms.
    method ReachableFrom(start: GridRoom) returns (reachable: set<GridRoom>)
      requires Valid() && start in live
      ensures reachable <= live && forall r: GridRoom :: r in reachable <==> Reach(G(), start, r)
    {
      hide Labelled, QueueOrdered, Settled, Bfs, BfsAt, ReachIn, Reach, OnGrid, GraphOf, Valid;
      ghost var g: Graph<GridRoom>, d: map<GridRoom, nat> := G(), map[start := 0];
      LiveIsVertex(start);
      BfsStart(g, start);
      var queue := [start];
      reachable := {start};
      while |queue| > 0
        invariant reachable == d.Keys && reachable <= live
        invariant Bfs(g, start, d, queue)
        decreases live - reachable, |queue|
      {
        BfsTake(g, start, d, queue);
        var current := queue[0];
        queue, reachable, d := MarkConnections(current, queue[1..], reachable, start, d);
      }
      BfsFinished(g, start, d);
    }

    method MarkConnections(current: GridRoom, queue0: seq<GridRoom>, visited0: set<GridRoom>,
                           ghost start: GridRoom, ghost d0: map<GridRoom, nat>)
      returns (queue: seq<GridRoom>, visited: set<GridRoom>, ghost d: map<GridRoom, nat>)
      requires Valid() && current in live && visited0 == d0.Keys && visited0 <= live
      requires current in d0 && BfsAt(G(), start, d0, queue0, current)
      ensures visited == d.Keys && visited0 <= visited <= live
      ensures visited == visited0 ==> queue == queue0
      ensures Bfs(G(), start, d, queue)
    {
      hide *;
      queue, visited, d := queue0, visited0, d0;
      ghost var g := G();
      ConnectionsOf(g, current);
      var connections := current.connections;
      for i := 0 to |connections|
        invariant visited == d.Keys && visited0 + {current} <= visited <= live
        invariant visited == visited0 ==> queue == queue0
        invariant BfsAt(g, start, d, queue, current)
        invariant forall k :: 0 <= k < i ==> connections[k] in visited
      {
        var conn := connections[i];
        if conn !in visited {
          BfsVisit(g, start, d, queue, current, conn);
          visited := visited + {conn};
          d := d[conn := d[current] + 1];
          queue := queue + [conn];
        }
      }
      BfsDone(g, start, d, queue, current);
    }

    // Exactly the rooms reachable from the start survive.
    method RemoveOrphanedRooms(xMax: int, yMax: int)
      requires Valid() && Size(xMax, yMax) && InGrid(startX, startY)
      modifies this`live, rooms, live`connections
      ensures Valid()
      ensures rooms[startY, startX] == old(rooms[startY, startX])
      ensures rooms[startY, startX] == null ==> live == old(live) && G() == old(G())
      ensures rooms[startY, startX] != null ==>
        live == set r: GridRoom | r in old(live) && old(Reach<GridRoom>(G(), rooms[startY, startX], r))
      ensures rooms[startY, startX] != null ==> forall r :: r in live ==> G()[r] == old(G())[r]
    {
      hide OnGrid, GraphOf, Reach, ReachIn, Swept;
      if rooms[startY, startX] == null {
        return;
      }
      ghost var start: GridRoom, g0: Graph<GridRoom> := rooms[startY, startX], G();
      var reachable := ReachableFrom(rooms[startY, startX]);
      VerticesSame();
      BeginSweep(start, g0, reachable);
      for x := 0 to xMax
        invariant Valid() && Swept(start, g0, reachable)
        invariant live <= old(live) && forall r :: r in live && r.x < x ==> r in reachable
      {
        for y := 0 to yMax
          invariant Valid() && Swept(start, g0, reachable)
          invariant live <= old(live) && forall r :: r in live && (r.x < x || (r.x == x && r.y < y)) ==> r in reachable
        {
          DropOrphan(x, y, start, g0, reachable);
        }
      }
      EndSweep(start, g0, reachable);
    }

    // Only unreachable rooms have gone, and the reachable ones have kept their connections.
    ghost predicate Swept(start: GridRoom, g0: Graph<GridRoom>, reachable: set<GridRoom>)
      reads this`rooms, this`live, this`startX, this`startY, rooms, live`connections
    {
      && InGrid(startX, startY) && rooms[startY, startX] == start && start in reachable
      && reachable <= live <= g0.Keys && G().Keys == live
      && (forall r :: r in reachable ==> G()[r] == g0[r])
      && (forall r :: r in g0 ==> (r in reachable <==> Reach(g0, start, r)))
    }

    lemma BeginSweep(start: GridRoom, g0: Graph<GridRoom>, reachable: set<GridRoom>)
      requires Valid() && InGrid(startX, startY) && rooms[startY, startX] == start && g0 == G()
      requires reachable <= live && forall r: GridRoom :: r in reachable <==> Reach(g0, start, r)
      ensures Swept(start, g0, reachable)
    {
      hide Reach;
      ReachRefl(g0, start);
    }

    lemma EndSweep(start: GridRoom, g0: Graph<GridRoom>, reachable: set<GridRoom>)
      requires Swept(start, g0, reachable) && live <= reachable
      ensures rooms.Length0 > startY >= 0 && rooms.Length1 > startX >= 0 && rooms[startY, startX] == start
      ensures live == set r: GridRoom | r in g0.Keys && Reach(g0, start, r)
      ensures forall r :: r in live ==> G()[r] == g0[r]
    {
      hide Reach, GraphOf;
    }

    method DropOrphan(x: int, y: int, ghost start: GridRoom, ghost g0: Graph<GridRoom>, reachable: set<GridRoom>)
      requires Valid() && InGrid(x, y) && Swept(start, g0, reachable)
      modifies this`live, rooms, live`connections
      ensures Valid() && Swept(start, g0, reachable) && live <= old(live)
      ensures rooms[y, x] == null || rooms[y, x] in reachable
    {
      hide OnGrid, GraphOf, Reach, ReachIn;
      if rooms[y, x] != null && rooms[y, x] !in reachable {
        ghost var room: GridRoom := rooms[y, x];
        forall r | r in reachable
          ensures room !in g0[r]
        {
          UnreachedNeighbour(g0, start, r, room);
        }
        RemoveRoom(x, y);
      }
    }

    lemma UnreachedNeighbour(g: Graph<GridRoom>, start: GridRoom, r: GridRoom, room: GridRoom)
      requires room in g && r in g && Reach(g, start, r) && !Reach(g, start, room)
      ensures room !in g[r]
    {
      if room in g[r] {
        ReachStep(g, r, room);
        ReachTrans(g, start, r, room);
      }
    }

    lemma VerticesSame()
      ensures G().Keys == live
    {
    }

    // With every room reachable from the start, removeOrphanedRooms removes nothing.
    lemma NoOrphans(g0: Graph<GridRoom>, live0: set<GridRoom>, start: GridRoom)
      requires g0.Keys == live0 && ConnectedFrom(g0, start)
      requires live == set r: GridRoom | r in live0 && Reach(g0, start, r)
      requires forall r :: r in live ==> G()[r] == g0[r]
      ensures live == live0 && G() == g0
    {
      forall r: GridRoom | r in live0
        ensures r in live
      {
        assert Reach(g0, start, r);
      }
      assert G().Keys == g0.Keys;
    }

    // Generate2D up to the end of generateMazeRecursiveBacktracking.
    method Carve(xMax: int, yMax: int) returns (ghost tree: Graph<GridRoom>)
      requires xMax >= 1 && yMax >= 1
      modifies this`rooms, this`live
      ensures fresh(rooms) && fresh(live)
      ensures Valid() && Full() && Size(xMax, yMax)
      ensures tree == G() && SpanningTree() && |live| == xMax * yMax
      ensures forall r :: r in live ==> r.step == 0 && !r.isStart && !r.isEnd
    {
      hide OnGrid, GraphOf, SpanningTree;
      rooms := new GridRoom?[yMax, xMax]((_, _) => null);
      CreateAllRooms(xMax, yMax);
      GenerateMazeRecursiveBacktracking(xMax, yMax);
      tree := G();
    }

    // The phases of Generate2D up to and including the first search for a critical path. Only a maze of one
    // room keeps the end it had before, and fails when that is not its cell.
    method BuildTree(xMax: int, yMax: int)
      returns (panics: bool, ghost tree: Graph<GridRoom>)
      requires xMax >= 1 && yMax >= 1
      modifies this
      ensures panics <==> xMax == 1 && yMax == 1 && (old(endX) != 0 || old(endY) != 0)
      ensures !panics ==>
        && fresh(rooms) && fresh(live)
        && Valid() && Size(xMax, yMax) && InGrid(startX, startY) && InGrid(endX, endY)
        && rooms[startY, startX] != null && rooms[endY, endX] != null
        && (xMax * yMax > 1 ==> startX != endX || startY != endY)
        && (forall r :: r in live ==> (r.isStart <==> InCell(r, startX, startY)))
        && (forall r :: r in live ==> (r.isEnd <==> xMax * yMax > 1 && InCell(r, endX, endY)))
        && Full() && tree == G() && SpanningTree() && |live| == xMax * yMax
        && CriticalPathFound(rooms[startY, startX], rooms[endY, endX])
        && forall r :: r in live && r !in criticalPath ==> r.step == 0
    {
      hide Valid, Placed, OnGrid, GraphOf, Reach, ReachIn, Distances, SpanningTree, CriticalPathFound, InCell;
      AtLeastTwo(xMax, yMax);
      tree := Carve(xMax, yMax);
      SetStartAndEnd(xMax, yMax);
      CalculateDistancesFromStart();
      CellIsLive(startX, startY);
      if InGrid(endX, endY) {
        CellIsLive(endX, endY);
        Reached(rooms[startY, startX], rooms[endY, endX]);
      }
      panics := FindCriticalPath();
    }

    lemma Reached(start: GridRoom, r: GridRoom)
      requires start in live && r in live && SpanningTree()
      ensures Reach(G(), start, r)
    {
    }

    lemma StillKept(g0: Graph<GridRoom>, start: GridRoom, end: GridRoom)
      requires Extends(g0, G()) && g0.Keys == live && start in live
      requires ConnectedFrom(g0, start) && WalkBetween(g0, criticalPath, start, end)
      ensures PathKept(start, end)
    {
      forall v: GridRoom | v in G()
        ensures Reach(G(), start, v)
      {
        ReachExtends(g0, G(), start, v);
      }
    }

    // Generate2D from addAdditionalConnections up to the end of removeOrphanedRooms.
    method Thin(xMax: int, yMax: int, ghost start: GridRoom, ghost end: GridRoom) returns (ghost ph: Phases)
      requires Valid() && Full() && Size(xMax, yMax) && InGrid(startX, startY) && rooms[startY, startX] == start
      requires start in live && ConnectedFrom(G(), start) && WalkBetween(G(), criticalPath, start, end)
      modifies this`live, rooms, live`connections
      ensures Valid() && PathKept(start, end) && live <= old(live) && Survives(old(G()), G())
      ensures PhasesOf(old(G()), ph, xMax * yMax / 10, criticalPath, G())
      ensures |Edges(G())| - 2 * |live| <= |Edges(old(G()))| - 2 * |old(live)| + 2 * (xMax * yMax / 10)
    {
      hide OnGrid, GraphOf, Reach, ReachIn, ConnectedFrom, WalkBetween, Edges, Survives, Grows, Cuts, RemoveAll, PhasesOf, PathKept;
      ghost var g0 := G();
      VerticesSame();
      SymmetricRooms();
      ghost var stages, drawn := AddAdditionalConnections(xMax, yMax);
      ghost var grown := G();
      VerticesSame();
      SymmetricRooms();
      NoLoops();
      StillKept(g0, start, end);
      ExtensionSurvives(g0, grown);
      ghost var removed := RemoveRoomsProtectingPath(xMax, yMax, start, end);
      ghost var g1, live1 := G(), live;
      SurvivesTwice(g0, grown, g1);
      VerticesSame();
      KeptReaches(start, end);
      StartInCell(start);
      ph := Phases(stages, drawn, removed);
      PhasesAre(g0, ph, xMax * yMax / 10, g1);
      RemoveOrphanedRooms(xMax, yMax);
      NoOrphans(g1, live1, start);
      IsKept(start, end);
      PhasesEdges(g0, ph, xMax * yMax / 10, criticalPath, g1, start);
    }

    lemma NoLoops()
      requires OnGrid(live)
      ensures Irreflexive(G())
    {
    }

    lemma KeptReaches(start: GridRoom, end: GridRoom)
      requires PathKept(start, end) && Placed()
      ensures start in live && ConnectedFrom(G(), start) && start in criticalPath && WalkBetween(G(), criticalPath, start, end)
    {
    }

    lemma IsKept(start: GridRoom, end: GridRoom)
      requires start in live && ConnectedFrom(G(), start) && WalkBetween(G(), criticalPath, start, end)
      ensures PathKept(start, end)
    {
    }

    lemma PhasesAre(g0: Graph<GridRoom>, ph: Phases, n: int, g1: Graph<GridRoom>)
      requires |ph.drawn| == n && Grows(ph.stages, ph.drawn) && ph.stages[0] == g0
      requires (forall i :: 0 <= i < n ==> ph.drawn[i] != null)
      requires Cuts(ph.stages[n], criticalPath, ph.removed) && g1 == RemoveAll(ph.stages[n], ph.removed)
      ensures PhasesOf(g0, ph, n, criticalPath, g1)
    {
      hide Grows, Cuts, RemoveAll;
    }

    lemma ExtensionSurvives(g0: Graph<GridRoom>, g1: Graph<GridRoom>)
      requires Extends(g0, g1) && g0.Keys == g1.Keys
      ensures Survives(g0, g1)
    {
    }

    lemma StartInCell(r: GridRoom)
      requires Placed() && r in live
      ensures InGrid(r.x, r.y) && rooms[r.y, r.x] == r
    {
    }

    // What a generated maze promises its users.
    ghost predicate Generated(xMax: int, yMax: int, start: GridRoom, end: GridRoom)
      reads this, rooms, live, criticalPath
    {
      && Valid() && Size(xMax, yMax)
      && InGrid(startX, startY) && rooms[startY, startX] == start
      && InGrid(endX, endY) && rooms[endY, endX] == end
      && (xMax * yMax > 1 ==> start != end)
      && (forall r :: r in live ==> (r.isStart <==> r == start))
      && (forall r :: r in live ==> (r.isEnd <==> xMax * yMax > 1 && r == end))
      && (forall s: GridRoom :: s in live ==> ConnectedFrom(G(), s))
      && (forall r: GridRoom :: r in live ==> r.distanceFromStart >= 0 && IsDist(G(), start, r, r.distanceFromStart))
      && CriticalPathFound(start, end)
      && |Edges(G())| <= 2 * (|live| - 1 + xMax * yMax / 10)
    }

    // The maze in coordinates: rooms stand in their own cells, every connection leads to the room one cell
    // up, down, left or right and back, and distances count connections from the start: that of a room is
    // one more than the least among its neighbours.
    lemma MazeInCells(xMax: int, yMax: int, start: GridRoom, end: GridRoom, x: int, y: int)
      requires Generated(xMax, yMax, start, end) && 0 <= x < xMax && 0 <= y < yMax && rooms[y, x] != null
      ensures rooms[y, x].x == x && rooms[y, x].y == y
      ensures forall c :: c in rooms[y, x].connections ==>
        && 0 <= c.x < xMax && 0 <= c.y < yMax && rooms[c.y, c.x] == c && rooms[y, x] in c.connections
        && Abs(c.x - x) + Abs(c.y - y) == 1
        && Abs(c.distanceFromStart - rooms[y, x].distanceFromStart) <= 1
      ensures rooms[y, x].distanceFromStart == 0 <==> rooms[y, x] == start
      ensures rooms[y, x] != start ==>
        exists c :: c in rooms[y, x].connections && c.distanceFromStart == rooms[y, x].distanceFromStart - 1
    {
      hide ConnectedFrom, IsDist, CriticalPathFound, Edges;
      DistancesByOne(start, rooms[y, x]);
    }

    lemma DistancesByOne(start: GridRoom, r: GridRoom)
      requires OnGrid(live) && r in live
      requires forall q: GridRoom :: q in live ==> q.distanceFromStart >= 0 && IsDist(G(), start, q, q.distanceFromStart)
      ensures forall c :: c in r.connections ==> Abs(c.distanceFromStart - r.distanceFromStart) <= 1
      ensures r.distanceFromStart == 0 <==> r == start
      ensures r != start ==> exists c :: c in r.connections && c.distanceFromStart == r.distanceFromStart - 1
    {
      hide OnGrid, IsDist, Symmetric;
      var g: Graph<GridRoom> := G();
      SymmetricRooms();
      var c0: GridRoom := DistanceByOne(g, start, r, r.distanceFromStart);
      if r != start {
        Neighbours(c0, r);
        OneDistance(g, start, c0, c0.distanceFromStart, r.distanceFromStart - 1);
      }
      forall c | c in r.connections
        ensures Abs(c.distanceFromStart - r.distanceFromStart) <= 1
      {
        Neighbours(r, c);
        NeighbourDistance(g, start, r, c, r.distanceFromStart, c.distanceFromStart);
      }
    }

    lemma Neighbours(r: GridRoom, c: GridRoom)
      requires OnGrid(live) && r in live
      ensures r in G() && (c in G()[r] <==> c in r.connections)
      ensures c in r.connections ==> c in live && c in G() && r in c.connections
    {
    }

    lemma EndsKept(start: GridRoom, end: GridRoom)
      requires Placed() && PathKept(start, end)
      ensures start in live && end in live && Reach(G(), start, end)
      ensures InGrid(start.x, start.y) && rooms[start.y, start.x] == start
      ensures InGrid(end.x, end.y) && rooms[end.y, end.x] == end
    {
    }

    lemma NoLonger(path: seq<GridRoom>, start: GridRoom, end: GridRoom)
      requires WalkBetween(G(), path, start, end) && CriticalPathFound(start, end)
      ensures |criticalPath| <= |path|
      ensures forall r :: r in path ==> r in live
    {
      WalkReaches(G(), path);
    }

    lemma EverywhereReachable(start: GridRoom, end: GridRoom)
      requires Valid() && PathKept(start, end) && Distances(start)
      ensures forall s: GridRoom :: s in live ==> ConnectedFrom(G(), s)
      ensures forall r: GridRoom :: r in live ==> r.distanceFromStart >= 0 && IsDist(G(), start, r, r.distanceFromStart)
    {
      SymmetricRooms();
      VerticesSame();
      forall s: GridRoom | s in live
        ensures ConnectedFrom(G(), s)
      {
        ConnectedFromAny(G(), start, s);
      }
    }

    // The recalculation that ends Generate2D.
    method Recalculate(ghost start: GridRoom, ghost end: GridRoom)
      requires Valid() && InGrid(startX, startY) && InGrid(endX, endY) && PathKept(start, end)
      requires rooms[startY, startX] == start && rooms[endY, endX] == end
      modifies this`criticalPath, live`step, live`distanceFromStart
      ensures PathKept(start, end) && CriticalPathFound(start, end) && Distances(start)
      ensures |criticalPath| <= |old(criticalPath)|
      ensures forall r :: r in old(criticalPath) ==> r in live
      ensures forall r :: r in live && r !in criticalPath ==> r.step == old(r.step)
    {
      hide OnGrid, GraphOf, Reach, ReachIn, ConnectedFrom, Walk, IsDist, Distances;
      ghost var path := criticalPath;
      EndsKept(start, end);
      CalculateDistancesFromStart();
      var _ := FindCriticalPath();
      NoLonger(path, start, end);
    }

    // Generate2D from addAdditionalConnections on.
    method Finish(xMax: int, yMax: int, ghost start: GridRoom, ghost end: GridRoom) returns (ghost ph: Phases)
      requires Valid() && Full() && |live| == xMax * yMax && Size(xMax, yMax) && InGrid(startX, startY) && InGrid(endX, endY)
      requires rooms[startY, startX] == start && rooms[endY, endX] == end
      requires xMax * yMax > 1 ==> start != end
      requires forall r :: r in live ==> (r.isStart <==> InCell(r, startX, startY))
      requires forall r :: r in live ==> (r.isEnd <==> xMax * yMax > 1 && InCell(r, endX, endY))
      requires SpanningTree() && CriticalPathFound(start, end)
      modifies this`live, this`criticalPath, rooms, live
      ensures Generated(xMax, yMax, start, end) && live <= old(live) && Survives(old(G()), G())
      ensures PhasesOf(old(G()), ph, xMax * yMax / 10, old(criticalPath), G())
      ensures forall r :: r in old(criticalPath) ==> r in live
      ensures |criticalPath| <= |old(criticalPath)|
      ensures forall r :: r in live && r !in criticalPath ==> r.step == old(r.step)
    {
      hide PhasesOf, OnGrid, GraphOf, Reach, ReachIn, ConnectedFrom, Walk, Edges, IsDist, Distances, PathKept, CriticalPathFound, Survives;
      StartInCell(start);
      StartInCell(end);
      ReadyToThin(start, end);
      ph := Thin(xMax, yMax, start, end);
      EndsKept(start, end);
      Recalculate(start, end);
      EverywhereReachable(start, end);
    }

    lemma ReadyToThin(start: GridRoom, end: GridRoom)
      requires start in live && SpanningTree() && CriticalPathFound(start, end)
      ensures ConnectedFrom(G(), start) && WalkBetween(G(), criticalPath, start, end) && |Edges(G())| == 2 * (|live| - 1)
    {
    }

    // tree is the spanning tree the maze was cut from and path its shortest path from start to end: the
    // path outlived the removals, so the final critical path is no longer. The source fails for a grid
    // without cells, and for a single room when an earlier maze left its end elsewhere.
    method Generate2D(xMax: int, yMax: int)
      returns (panics: bool, result: array2<GridRoom?>, ghost tree: Graph<GridRoom>, ghost path: seq<GridRoom>, ghost ph: Phases)
      modifies this
      ensures panics <==> xMax < 1 || yMax < 1 || (xMax == 1 && yMax == 1 && (old(endX) != 0 || old(endY) != 0))
      ensures !panics ==> InGrid(startX, startY) && InGrid(endX, endY)
      ensures !panics ==> rooms[startY, startX] != null && rooms[endY, endX] != null
      ensures !panics ==> Generated(xMax, yMax, rooms[startY, startX], rooms[endY, endX])
      ensures !panics ==> CutFrom(tree, xMax, yMax, path, rooms[startY, startX], rooms[endY, endX])
      ensures !panics ==> PhasesOf(tree, ph, xMax * yMax / 10, path, G())
      ensures !panics ==> result.Length0 == yMax && result.Length1 == xMax
      ensures !panics ==> forall x, y :: 0 <= x < xMax && 0 <= y < yMax ==> result[y, x] == rooms[y, x]
    {
      hide Valid, Placed, OnGrid, GraphOf, Reach, ReachIn, ConnectedFrom, Walk, Edges, IsDist, Survives, Generated, InCell, Distances,
           SpanningTree, TreeOf, PhasesOf, CutFrom;
      result, tree, path, ph := new GridRoom?[0, 0], map[], [], Phases([], [], []);
      if xMax < 1 || yMax < 1 {  // where make or Intn fails
        return true, result, tree, path, ph;
      }
      AtLeastTwo(xMax, yMax);
      panics, tree, path, ph := GenerateRooms(xMax, yMax);
      if panics {
        return;
      }
      GeneratedEnds(xMax, yMax, rooms[startY, startX], rooms[endY, endX]);
      result := new GridRoom?[yMax, xMax]((y, x) reads this, rooms requires 0 <= y < rooms.Length0 && 0 <= x < rooms.Length1 => rooms[y, x]);
    }

    // Generate2D but for the slice it returns
    method GenerateRooms(xMax: int, yMax: int) returns (panics: bool, ghost tree: Graph<GridRoom>, ghost path: seq<GridRoom>, ghost ph: Phases)
      requires xMax >= 1 && yMax >= 1
      modifies this
      ensures panics <==> xMax * yMax == 1 && (old(endX) != 0 || old(endY) != 0)
      ensures !panics ==> InGrid(startX, startY) && InGrid(endX, endY)
      ensures !panics ==> rooms[startY, startX] != null && rooms[endY, endX] != null
      ensures !panics ==> Generated(xMax, yMax, rooms[startY, startX], rooms[endY, endX])
      ensures !panics ==> CutFrom(tree, xMax, yMax, path, rooms[startY, startX], rooms[endY, endX])
      ensures !panics ==> PhasesOf(tree, ph, xMax * yMax / 10, path, G())
    {
      hide Valid, Placed, OnGrid, GraphOf, Reach, ReachIn, ConnectedFrom, Walk, Edges, IsDist, Survives, Generated, InCell, Distances,
           SpanningTree, TreeOf, PhasesOf;
      AtLeastTwo(xMax, yMax);
      panics, tree := BuildTree(xMax, yMax);
      path, ph := [], Phases([], [], []);
      if panics {
        return;
      }
      path := criticalPath;
      StepsNumbered(rooms[startY, startX], rooms[endY, endX]);
      ghost var start: GridRoom, end: GridRoom := rooms[startY, startX], rooms[endY, endX];
      SpanningIsTree(tree, xMax, yMax);
      if xMax * yMax > 1 {
        DistinctCells();
      }
      ph := Finish(xMax, yMax, start, end);
      GeneratedEnds(xMax, yMax, start, end);
    }

    lemma StepsNumbered(start: GridRoom, end: GridRoom)
      requires CriticalPathFound(start, end)
      ensures forall i :: 0 <= i < |criticalPath| ==> criticalPath[i] in live && criticalPath[i].step == i + 1
    {
    }

    lemma DistinctCells()
      requires Valid() && InGrid(startX, startY) && InGrid(endX, endY) && (startX != endX || startY != endY)
      ensures rooms[startY, startX] == null || rooms[startY, startX] != rooms[endY, endX]
    {
    }

    lemma GeneratedEnds(xMax: int, yMax: int, start: GridRoom, end: GridRoom)
      requires Generated(xMax, yMax, start, end)
      ensures Size(xMax, yMax) && InGrid(startX, startY) && InGrid(endX, endY)
      ensures rooms[startY, startX] == start && rooms[endY, endX] == end
    {
    }

    lemma AtLeastTwo(xMax: int, yMax: int)
      requires xMax >= 1 && yMax >= 1
      ensures xMax * yMax >= 1 && (xMax * yMax == 1 <==> xMax == 1 && yMax == 1)
    {
      if xMax > 1 {
        assert xMax * yMax == yMax + (xMax - 1) * yMax && (xMax - 1) * yMax >= 1;
      }
    }

    ghost predicate TreeOf(tree: Graph<GridRoom>, xMax: int, yMax: int) {
      && |tree| == xMax * yMax && |Edges(tree)| == 2 * (|tree| - 1)
      && (forall s :: s in tree ==> ConnectedFrom(tree, s))
    }

    lemma SpanningIsTree(tree: Graph<GridRoom>, xMax: int, yMax: int)
      requires tree == G() && SpanningTree() && |live| == xMax * yMax
      ensures TreeOf(tree, xMax, yMax) && tree.Keys == live
    {
      hide ConnectedFrom, Edges;
      VerticesSame();
    }

    // The maze was cut from a spanning tree of the whole grid, whose edges between the rooms left remain;
    // the tree's shortest path from start to end is one of those left, and off the final path its rooms keep
    // the steps it gave them.
    ghost predicate CutFrom(tree: Graph<GridRoom>, xMax: int, yMax: int, path: seq<GridRoom>, start: GridRoom, end: GridRoom)
      reads this`live, this`criticalPath, live`connections, live`step
    {
      && TreeOf(tree, xMax, yMax) && WalkBetween(tree, path, start, end) && IsDist(tree, start, end, |path| - 1)
      && live <= tree.Keys && Survives(tree, G())
      && (forall r :: r in path ==> r in live)
      && |criticalPath| <= |path|
      && (forall i :: 0 <= i < |path| && path[i] !in criticalPath ==> path[i].step == i + 1)
      && (forall r :: r in live && r !in criticalPath && r !in path ==> r.step == 0)
    }
  }

  // A generator used again for a single room fails exactly when the first maze's end was not in its corner.
  method Regenerate(xMax: int, yMax: int) returns (firstPanics: bool, panics: bool, endX: int, endY: int)
    ensures firstPanics <==> xMax < 1 || yMax < 1
    ensures !firstPanics ==> 0 <= endX < xMax && 0 <= endY < yMax && (panics <==> endX != 0 || endY != 0)
  {
    panics, endX, endY := false, 0, 0;
    var m := new GridMaze();
    var first, _, _, _, _ := m.Generate2D(xMax, yMax);
    firstPanics := first;
    if !first {
      endX, endY := m.endX, m.endY;
      SizedEnd(m, xMax, yMax);
      var second, _, _, _, _ := m.Generate2D(1, 1);
      panics := second;
    }
  }

  lemma SizedEnd(m: GridMaze, xMax: int, yMax: int)
    requires m.InGrid(m.startX, m.startY) && m.InGrid(m.endX, m.endY)
    requires m.rooms[m.startY, m.startX] != null && m.rooms[m.endY, m.endX] != null
    requires m.Generated(xMax, yMax, m.rooms[m.startY, m.startX], m.rooms[m.endY, m.endX])
    ensures 0 <= m.endX < xMax && 0 <= m.endY < yMax
  {
  }
}
