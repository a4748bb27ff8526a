/**
 The path search of internal/mapper/mapper.path.go over the rooms found by a crawl.
 Scores are integers: the source's float64 values are sums of unit costs and grid offsets.
 */
module MapPath {
  import opened Common
  import opened Graphs
  import opened OpenSets

  // A crawled room: its place in the grid and, by name, where each exit with a direction leads.
  datatype Node = Node(x: int, y: int, z: int, exits: map<string, int>)
  type Crawl = map<int, Node>

  datatype Step = Step(exitName: string, roomId: int, waypoint: bool)
  datatype PathError = PathNotFound | PathDestMatch | RoomNotFound
  datatype PathResult = Path(steps: seq<Step>) | Failed(err: PathError)

  datatype Score = Infinite | Finite(v: nat)
  datatype PrevInfo = PrevInfo(prevRoom: int, viaExit: string)

  // Exits that stay among the crawled rooms.
  function GraphOf(c: Crawl): Graph<int> {
    map r | r in c :: set e | e in c[r].exits && c[r].exits[e] in c :: c[r].exits[e]
  }

  function Distance(a: Node, b: Node): nat {
    Abs(a.x - b.x) + Abs(a.y - b.y) + Abs(a.z - b.z)
  }

  // The Manhattan distance: none from a cell to itself, one more for each unit further in any direction.
  lemma DistanceGrows(a: Node, b: Node, n: nat)
    ensures a.x == b.x && a.y == b.y && a.z == b.z <==> Distance(a, b) == 0
    ensures b.x >= a.x ==> Distance(a, b.(x := b.x + n)) == Distance(a, b) + n
    ensures b.x <= a.x ==> Distance(a, b.(x := b.x - n)) == Distance(a, b) + n
    ensures b.y >= a.y ==> Distance(a, b.(y := b.y + n)) == Distance(a, b) + n
    ensures b.y <= a.y ==> Distance(a, b.(y := b.y - n)) == Distance(a, b) + n
    ensures b.z >= a.z ==> Distance(a, b.(z := b.z + n)) == Distance(a, b) + n
    ensures b.z <= a.z ==> Distance(a, b.(z := b.z - n)) == Distance(a, b) + n
  {
  }

  // GetCoordinates answers (0, 0, 0) for a room that was not crawled.
  function NodeAt(c: Crawl, r: int): Node {
    if r in c then c[r] else Node(0, 0, 0, map[])
  }

  function Heuristic(c: Crawl, a: int, b: int): nat {
    Distance(NodeAt(c, a), NodeAt(c, b))
  }

  // Every exit between crawled rooms covers at most w Manhattan units of the grid.
  ghost predicate Spread(c: Crawl, w: nat) {
    forall r, e :: r in c && e in c[r].exits && c[r].exits[e] in c ==> Distance(c[r], c[c[r].exits[e]]) <= w
  }

  // ---------- what a route is ----------

  function Origin(start: int, steps: seq<Step>, i: int): int
    requires 0 <= i <= |steps|
  {
    if i == 0 then start else steps[i - 1].roomId
  }

  // Each step takes an existing exit of the room the step before arrived in.
  ghost predicate Follows(c: Crawl, start: int, steps: seq<Step>) {
    forall i :: 0 <= i < |steps| ==>
      && Origin(start, steps, i) in c
      && steps[i].exitName in c[Origin(start, steps, i)].exits
      && c[Origin(start, steps, i)].exits[steps[i].exitName] == steps[i].roomId
      && steps[i].roomId in c
  }

  // A single leg: it ends in goal, enters no room twice, never re-enters start, and only its last
  // step is a waypoint.
  ghost predicate Leg(c: Crawl, start: int, goal: int, steps: seq<Step>) {
    && |steps| > 0
    && Follows(c, start, steps)
    && steps[|steps| - 1].roomId == goal
    && (forall i :: 0 <= i < |steps| ==> steps[i].roomId != start)
    && (forall i, j :: 0 <= i < j < |steps| ==> steps[i].roomId != steps[j].roomId)
    && (forall i :: 0 <= i < |steps| ==> (steps[i].waypoint <==> i == |steps| - 1))
  }

  lemma {:induction false} FollowsReaches(c: Crawl, start: int, steps: seq<Step>)
    requires start in c && Follows(c, start, steps)
    ensures ReachIn(GraphOf(c), start, Origin(start, steps, |steps|), |steps|)
    decreases |steps|
  {
    if |steps| > 0 {
      var n := |steps| - 1;
      var front := steps[..n];
      assert forall i :: 0 <= i <= n ==> Origin(start, front, i) == Origin(start, steps, i);
      assert forall i :: 0 <= i < n ==> front[i] == steps[i];
      FollowsReaches(c, start, front);
      var u := Origin(start, steps, n);
      assert steps[n].roomId in GraphOf(c)[u];
    }
  }

  // ---------- the state of the search ----------

  type Scores = map<int, Score>

  // cameFrom leads back to start, and the scores strictly drop along it.
  ghost predicate Chain(c: Crawl, start: int, g: Scores, cameFrom: map<int, PrevInfo>)
    requires g.Keys == c.Keys
  {
    && start in c && g[start] == Finite(0)
    && (forall n :: n in c && n != start && g[n].Finite? ==>
          && n in cameFrom
          && cameFrom[n].prevRoom in c
          && cameFrom[n].viaExit in c[cameFrom[n].prevRoom].exits
          && c[cameFrom[n].prevRoom].exits[cameFrom[n].viaExit] == n
          && g[cameFrom[n].prevRoom].Finite?
          && g[cameFrom[n].prevRoom].v + 1 <= g[n].v)
  }

  ghost predicate OpenScored(c: Crawl, goal: int, g: Scores, open: map<int, int>)
    requires g.Keys == c.Keys
  {
    forall n :: n in open ==> n in c && g[n].Finite? && open[n] == g[n].v + Heuristic(c, n, goal)
  }

  // No exit in done offers its target a better score.
  ghost predicate Expanded(c: Crawl, g: Scores, n: int, done: set<string>)
    requires g.Keys == c.Keys
  {
    && n in c && g[n].Finite?
    && forall e :: e in done && e in c[n].exits && c[n].exits[e] in c ==>
         g[c[n].exits[e]].Finite? && g[c[n].exits[e]].v <= g[n].v + 1
  }

  // Every room with a score that is neither open nor being expanded right now has been expanded.
  ghost predicate ClosedExpanded(c: Crawl, goal: int, g: Scores, open: map<int, int>, busy: set<int>)
    requires g.Keys == c.Keys
  {
    forall n :: n in c && g[n].Finite? && n !in open && n !in busy ==> n != goal && Expanded(c, g, n, c[n].exits.Keys)
  }

  ghost predicate Searching(c: Crawl, start: int, goal: int, g: Scores, cameFrom: map<int, PrevInfo>,
                            open: map<int, int>, busy: set<int>) {
    && g.Keys == c.Keys && goal in c
    && Chain(c, start, g, cameFrom)
    && OpenScored(c, goal, g, open)
    && ClosedExpanded(c, goal, g, open, busy)
  }

  // A neighbour that gets a better score through the room being expanded.
  lemma Relax(c: Crawl, start: int, goal: int, g: Scores, cameFrom: map<int, PrevInfo>, open: map<int, int>,
              cur: int, exitName: string)
    requires Searching(c, start, goal, g, cameFrom, open, {cur}) && cur in c && g[cur].Finite?
    requires exitName in c[cur].exits && c[cur].exits[exitName] in c
    requires g[c[cur].exits[exitName]].Infinite? || g[cur].v + 1 < g[c[cur].exits[exitName]].v
    ensures var n := c[cur].exits[exitName];
            var g' := g[n := Finite(g[cur].v + 1)];
            && n != cur && n != start
            && Searching(c, start, goal, g', cameFrom[n := PrevInfo(cur, exitName)],
                         open[n := g[cur].v + 1 + Heuristic(c, n, goal)], {cur})
            && forall done :: Expanded(c, g, cur, done) ==> Expanded(c, g', cur, done + {exitName})
  {
    hide Expanded, Heuristic, Chain;
    RelaxChain(c, start, g, cameFrom, cur, exitName);
    var n := c[cur].exits[exitName];
    var g' := g[n := Finite(g[cur].v + 1)];
    var open' := open[n := g[cur].v + 1 + Heuristic(c, n, goal)];
    forall m, done | Expanded(c, g, m, done) && m != n
      ensures Expanded(c, g', m, done)
    {
      RelaxKeeps(c, g, m, done, n, g[cur].v + 1);
    }
    forall done | Expanded(c, g, cur, done)
      ensures Expanded(c, g', cur, done + {exitName})
    {
      OneMore(c, g', cur, done, exitName);
    }
    forall m | m in c && g'[m].Finite? && m !in open' && m !in {cur}
      ensures m != goal && Expanded(c, g', m, c[m].exits.Keys)
    {
      assert Expanded(c, g, m, c[m].exits.Keys);
    }
  }

  lemma RelaxChain(c: Crawl, start: int, g: Scores, cameFrom: map<int, PrevInfo>, cur: int, exitName: string)
    requires g.Keys == c.Keys && Chain(c, start, g, cameFrom) && cur in c && g[cur].Finite?
    requires exitName in c[cur].exits && c[cur].exits[exitName] in c
    requires g[c[cur].exits[exitName]].Infinite? || g[cur].v + 1 < g[c[cur].exits[exitName]].v
    ensures var n := c[cur].exits[exitName];
            n != cur && n != start && Chain(c, start, g[n := Finite(g[cur].v + 1)], cameFrom[n := PrevInfo(cur, exitName)])
  {
  }

  // A lower score for another room keeps a room expanded.
  lemma RelaxKeeps(c: Crawl, g: Scores, m: int, done: set<string>, n: int, v: nat)
    requires g.Keys == c.Keys && n in c && (g[n].Infinite? || v < g[n].v) && m != n && Expanded(c, g, m, done)
    ensures Expanded(c, g[n := Finite(v)], m, done)
  {
  }

  lemma OneMore(c: Crawl, g: Scores, m: int, done: set<string>, e: string)
    requires g.Keys == c.Keys && Expanded(c, g, m, done) && e in c[m].exits && c[m].exits[e] in c
    requires g[c[m].exits[e]] == Finite(g[m].v + 1)
    ensures Expanded(c, g, m, done + {e})
  {
  }

  // ---------- termination ----------

  ghost function Unseen(g: Scores): set<int> {
    set r | r in g && g[r].Infinite?
  }

  ghost function Below(g: Scores): set<(int, int)> {
    set r, k | r in g && g[r].Finite? && 0 <= k < g[r].v :: (r, k)
  }

  ghost predicate NoWorse(g: Scores, g0: Scores) {
    g.Keys == g0.Keys && forall r :: r in g && g0[r].Finite? ==> g[r].Finite? && g[r].v <= g0[r].v
  }

  lemma Improves(g: Scores, g0: Scores)
    requires NoWorse(g, g0) && g != g0
    ensures Unseen(g) < Unseen(g0) || (Unseen(g) == Unseen(g0) && Below(g) < Below(g0))
  {
    forall r | r in Unseen(g)
      ensures r in Unseen(g0)
    {
      assert r in g0;
    }
    if forall r :: r in g ==> g[r] == g0[r] {
      assert false;
    } else {
      var r :| r in g && g[r] != g0[r];
      if Unseen(g) == Unseen(g0) {
        assert forall q :: q in g ==> (q in Unseen(g) <==> q in Unseen(g0));
        assert (r, g[r].v) in Below(g0) && (r, g[r].v) !in Below(g);
        forall p | p in Below(g)
          ensures p in Below(g0)
        {
          assert p.0 in g && g0[p.0].Finite?;
        }
      }
    }
  }

  // ---------- what the end of the search means ----------

  // Nothing open: every room reachable from start has a score and the goal has none.
  lemma {:induction false} Exhausted(c: Crawl, start: int, goal: int, g: Scores, cameFrom: map<int, PrevInfo>, v: int, n: nat)
    requires Searching(c, start, goal, g, cameFrom, map[], {})
    requires ReachIn(GraphOf(c), start, v, n)
    ensures v in c && g[v].Finite? && v != goal
    decreases n
  {
    if n > 0 {
      var u :| u in GraphOf(c) && ReachIn(GraphOf(c), start, u, n - 1) && v in GraphOf(c)[u];
      Exhausted(c, start, goal, g, cameFrom, u, n - 1);
      assert Expanded(c, g, u, c[u].exits.Keys);
      assert v in c && g[v].Finite?;
    }
  }

  lemma {:induction false} FirstStep(g: Graph<int>, a: int, b: int, n: nat) returns (x: int)
    requires n > 0 && ReachIn(g, a, b, n)
    ensures x in g && a in g && x in g[a] && ReachIn(g, x, b, n - 1)
    decreases n
  {
    var y :| y in g && ReachIn(g, a, y, n - 1) && b in g[y];
    if n == 1 {
      x := b;
    } else {
      x := FirstStep(g, a, y, n - 1);
      ReachStep(g, y, b);
      ReachInTrans(g, x, y, b, n - 2, 1);
    }
  }

  lemma Triangle(a: Node, b: Node, d: Node)
    ensures Distance(a, d) <= Distance(a, b) + Distance(b, d)
  {
  }

  lemma {:induction false} HeuristicBound(c: Crawl, w: nat, a: int, b: int, n: nat)
    requires Spread(c, w) && ReachIn(GraphOf(c), a, b, n)
    ensures Heuristic(c, a, b) <= w * n
    decreases n
  {
    if n > 0 {
      var y :| y in GraphOf(c) && ReachIn(GraphOf(c), a, y, n - 1) && b in GraphOf(c)[y];
      HeuristicBound(c, w, a, y, n - 1);
      Triangle(c[a], c[y], c[b]);
      assert w * n == w * (n - 1) + w;
    }
  }

  // From a room scored at most i with m steps to go, following a walk to the goal meets an open room,
  // and its fScore is at most i + w * m.
  lemma {:induction false} OpenOnTheWay(c: Crawl, start: int, goal: int, g: Scores, cameFrom: map<int, PrevInfo>,
                                        open: map<int, int>, w: nat, v: int, i: nat, m: nat) returns (u: int)
    requires Searching(c, start, goal, g, cameFrom, open, {}) && Spread(c, w) && w >= 1
    requires v in c && g[v].Finite? && g[v].v <= i && ReachIn(GraphOf(c), v, goal, m)
    ensures u in open && open[u] <= i + w * m
    decreases m
  {
    if v in open {
      u := v;
      HeuristicBound(c, w, v, goal, m);
    } else {
      assert Expanded(c, g, v, c[v].exits.Keys);
      var x := FirstStep(GraphOf(c), v, goal, m);
      assert g[x].Finite? && g[x].v <= i + 1;
      u := OpenOnTheWay(c, start, goal, g, cameFrom, open, w, x, i + 1, m - 1);
      assert w * m == w * (m - 1) + w;
    }
  }

  // When the goal is the least open room, its score is within a factor w of any walk's length.
  lemma GoalBound(c: Crawl, start: int, goal: int, g: Scores, cameFrom: map<int, PrevInfo>, open: map<int, int>, w: nat, n: nat)
    requires Searching(c, start, goal, g, cameFrom, open, {}) && Spread(c, w) && w >= 1
    requires goal in open && forall r :: r in open ==> open[goal] <= open[r]
    requires ReachIn(GraphOf(c), start, goal, n)
    ensures g[goal].v <= w * n
  {
    var u := OpenOnTheWay(c, start, goal, g, cameFrom, open, w, start, 0, n);
  }

  // ---------- the search itself ----------

  // One pass of the loop over the exits of the room just taken off the open set.
  method ExpandNeighbours(c: Crawl, start: int, goal: int, cur: int, openSet: OpenSet,
                          g0: Scores, f0: Scores, from0: map<int, PrevInfo>)
    returns (gScore: Scores, fScore: Scores, cameFrom: map<int, PrevInfo>)
    requires openSet.Valid() && g0.Keys == c.Keys
    requires Searching(c, start, goal, g0, from0, openSet.Entries(), {cur})
    requires cur in c && g0[cur].Finite? && cur != goal && cur !in openSet.Entries()
    modifies openSet
    ensures openSet.Valid()
    ensures Searching(c, start, goal, gScore, cameFrom, openSet.Entries(), {})
    ensures gScore.Keys == c.Keys && NoWorse(gScore, g0) && (gScore == g0 ==> openSet.Entries() == old(openSet.Entries()))
  {
    hide Chain, OpenScored, ClosedExpanded, Expanded, Heuristic;
    gScore, fScore, cameFrom := g0, f0, from0;
    var exits := c[cur].exits;
    var todo := exits.Keys;
    ghost var done := {};
    ExpandedNothing(c, g0, cur);
    while todo != {}
      invariant todo + done == exits.Keys
      invariant openSet.Valid() && cur !in openSet.Entries()
      invariant gScore.Keys == c.Keys && gScore[cur] == g0[cur]
      invariant Searching(c, start, goal, gScore, cameFrom, openSet.Entries(), {cur})
      invariant Expanded(c, gScore, cur, done)
      invariant NoWorse(gScore, g0) && (gScore == g0 ==> openSet.Entries() == old(openSet.Entries()))
      decreases todo
    {
      var exitName :| exitName in todo;
      todo := todo - {exitName};
      var neighbor := exits[exitName];
      // a room outside the crawl reads as score 0 and is never relaxed
      if neighbor in gScore && Better(gScore[cur], gScore[neighbor]) {
        Relax(c, start, goal, gScore, cameFrom, openSet.Entries(), cur, exitName);
        cameFrom := cameFrom[neighbor := PrevInfo(cur, exitName)];
        var tentativeG := gScore[cur].v + 1;
        var f := tentativeG + Heuristic(c, neighbor, goal);
        gScore := gScore[neighbor := Finite(tentativeG)];
        fScore := fScore[neighbor := Finite(f)];
        if neighbor in openSet.index {
          openSet.Update(neighbor, f);
        } else {
          openSet.Push(NodeRecord(neighbor, f));
        }
      } else {
        NotBetter(c, gScore, cur, done, exitName);
      }
      done := done + {exitName};
    }
    assert done == exits.Keys;
    Expand(c, start, goal, gScore, cameFrom, openSet.Entries(), cur);
  }

  predicate Better(cur: Score, neighbor: Score)
    requires cur.Finite?
  {
    neighbor.Infinite? || cur.v + 1 < neighbor.v
  }

  lemma ExpandedNothing(c: Crawl, g: Scores, cur: int)
    requires g.Keys == c.Keys && cur in c && g[cur].Finite?
    ensures Expanded(c, g, cur, {})
  {
  }

  lemma NotBetter(c: Crawl, g: Scores, cur: int, done: set<string>, exitName: string)
    requires g.Keys == c.Keys && Expanded(c, g, cur, done) && exitName in c[cur].exits
    requires c[cur].exits[exitName] in c ==> !Better(g[cur], g[c[cur].exits[exitName]])
    ensures Expanded(c, g, cur, done + {exitName})
  {
  }

  lemma Expand(c: Crawl, start: int, goal: int, g: Scores, cameFrom: map<int, PrevInfo>, open: map<int, int>, cur: int)
    requires Searching(c, start, goal, g, cameFrom, open, {cur}) && cur != goal
    requires cur in c && Expanded(c, g, cur, c[cur].exits.Keys)
    ensures Searching(c, start, goal, g, cameFrom, open, {})
  {
  }

  // The loop that follows cameFrom from the goal back to the start; the steps come out reversed.
  method Backtrace(c: Crawl, start: int, goal: int, ghost g: Scores, cameFrom: map<int, PrevInfo>)
    returns (path: seq<Step>)
    requires g.Keys == c.Keys && Chain(c, start, g, cameFrom) && goal in c && g[goal].Finite? && goal != start
    ensures BackLeg(c, start, goal, path) && |path| <= g[goal].v
  {
    hide Descending;
    path := [];
    var cur := goal;
    NothingDescends(c, g, g[cur].v);
    while cur != start
      invariant cur in c && g[cur].Finite? && |path| + g[cur].v <= g[goal].v
      invariant if path == [] then cur == goal else path[0].roomId == goal
      invariant forall i :: 0 <= i < |path| ==> !path[i].waypoint && EntersFrom(c, path[i], Before(cur, path, i))
      invariant Descending(c, g, path, g[cur].v)
      decreases g[cur].v
    {
      var info := cameFrom[cur];
      ghost var path0 := path;
      DescendsOn(c, g, path, g[cur].v, Step(info.viaExit, cur, false), g[info.prevRoom].v);
      path := path + [Step(info.viaExit, cur, false)];
      forall i | 0 <= i < |path|
        ensures !path[i].waypoint && EntersFrom(c, path[i], Before(info.prevRoom, path, i))
      {
        if i < |path0| {
          assert Before(info.prevRoom, path, i) == Before(cur, path0, i);
        }
      }
      cur := info.prevRoom;
    }
    DescendingDistinct(c, g, path, start);
  }

  // The scores drop along a reversed path and end above floor, so no room occurs twice.
  ghost predicate Descending(c: Crawl, g: Scores, path: seq<Step>, floor: nat)
    requires g.Keys == c.Keys
  {
    && (forall i :: 0 <= i < |path| ==> path[i].roomId in c && g[path[i].roomId].Finite? && g[path[i].roomId].v > floor)
    && (forall i, j :: 0 <= i < j < |path| ==> g[path[i].roomId].v > g[path[j].roomId].v)
  }

  lemma DescendingDistinct(c: Crawl, g: Scores, path: seq<Step>, start: int)
    requires g.Keys == c.Keys && start in c && g[start].Finite? && Descending(c, g, path, g[start].v)
    ensures forall i :: 0 <= i < |path| ==> path[i].roomId != start
    ensures forall i, j :: 0 <= i < j < |path| ==> path[i].roomId != path[j].roomId
  {
  }

  lemma NothingDescends(c: Crawl, g: Scores, floor: nat)
    requires g.Keys == c.Keys
    ensures Descending(c, g, [], floor)
  {
  }

  lemma DescendsOn(c: Crawl, g: Scores, path: seq<Step>, floor: nat, next: Step, below: nat)
    requires g.Keys == c.Keys && Descending(c, g, path, floor)
    requires next.roomId in c && g[next.roomId] == Finite(floor) && below < floor
    ensures Descending(c, g, path + [next], below)
  {
  }

  // The room a reversed path comes from before its i-th entry.
  function Before(origin: int, path: seq<Step>, i: int): int
    requires 0 <= i < |path|
  {
    if i + 1 < |path| then path[i + 1].roomId else origin
  }

  ghost predicate EntersFrom(c: Crawl, s: Step, r: int) {
    r in c && s.exitName in c[r].exits && c[r].exits[s.exitName] == s.roomId && s.roomId in c
  }

  ghost predicate BackLeg(c: Crawl, start: int, goal: int, path: seq<Step>) {
    && |path| > 0 && path[0].roomId == goal
    && (forall i :: 0 <= i < |path| ==> !path[i].waypoint && EntersFrom(c, path[i], Before(start, path, i)))
    && (forall i :: 0 <= i < |path| ==> path[i].roomId != start)
    && (forall i, j :: 0 <= i < j < |path| ==> path[i].roomId != path[j].roomId)
  }

  method Reverse(path0: seq<Step>) returns (path: seq<Step>)
    ensures |path| == |path0| && forall k :: 0 <= k < |path| ==> path[k] == path0[|path| - 1 - k]
  {
    path := path0;
    for i := 0 to |path0| / 2
      invariant |path| == |path0|
      invariant forall k :: 0 <= k < i ==> path[k] == path0[|path| - 1 - k] && path[|path| - 1 - k] == path0[k]
      invariant forall k :: i <= k < |path| - i ==> path[k] == path0[k]
    {
      var j := |path| - 1 - i;
      path := path[i := path[j]][j := path[i]];
    }
  }

  lemma Turned(c: Crawl, start: int, goal: int, back: seq<Step>, path: seq<Step>)
    requires BackLeg(c, start, goal, back) && |path| == |back|
    requires forall k :: 0 <= k < |path| ==> path[k] == back[|path| - 1 - k]
    ensures Leg(c, start, goal, path[|path| - 1 := path[|path| - 1].(waypoint := true)])
  {
    var p := path[|path| - 1 := path[|path| - 1].(waypoint := true)];
    forall i | 0 <= i < |p|
      ensures Origin(start, p, i) in c && p[i].exitName in c[Origin(start, p, i)].exits
      ensures c[Origin(start, p, i)].exits[p[i].exitName] == p[i].roomId && p[i].roomId in c
      ensures p[i].roomId != start
    {
      var k := |p| - 1 - i;
      assert EntersFrom(c, back[k], Before(start, back, k));
      assert Before(start, back, k) == Origin(start, p, i);
    }
    forall i, j | 0 <= i < j < |p|
      ensures p[i].roomId != p[j].roomId
    {
      assert back[|p| - 1 - j].roomId != back[|p| - 1 - i].roomId;
    }
  }

  lemma Begin(c: Crawl, start: int, goal: int, g: Scores)
    requires start in c && goal in c && start != goal
    requires g.Keys == c.Keys && forall r :: r in c ==> g[r] == if r == start then Finite(0) else Infinite
    ensures Searching(c, start, goal, g, map[], map[start := Heuristic(c, start, goal)], {})
  {
  }

  lemma TakeOff(c: Crawl, start: int, goal: int, g: Scores, cameFrom: map<int, PrevInfo>, open: map<int, int>, cur: int)
    requires Searching(c, start, goal, g, cameFrom, open, {}) && cur in open
    ensures cur in c && g[cur].Finite? && Chain(c, start, g, cameFrom)
    ensures Searching(c, start, goal, g, cameFrom, open - {cur}, {cur})
  {
    var open' := open - {cur};
    forall n | n in c && g[n].Finite? && n !in open' && n !in {cur}
      ensures n != goal && Expanded(c, g, n, c[n].exits.Keys)
    {
      assert n !in open;
    }
  }

  // The promise about length: within a factor w of every walk, when exits cover at most w units.
  ghost predicate WithinFactor(c: Crawl, start: int, goal: int, length: nat) {
    forall w: nat, n: nat :: w >= 1 && Spread(c, w) && ReachIn(GraphOf(c), start, goal, n) ==> length <= w * n
  }

  lemma GoalWithinFactor(c: Crawl, start: int, goal: int, g: Scores, cameFrom: map<int, PrevInfo>, open: map<int, int>)
    requires Searching(c, start, goal, g, cameFrom, open, {})
    requires goal in open && forall r :: r in open ==> open[goal] <= open[r]
    ensures WithinFactor(c, start, goal, g[goal].v)
  {
    forall w: nat, n: nat | w >= 1 && Spread(c, w) && ReachIn(GraphOf(c), start, goal, n)
      ensures g[goal].v <= w * n
    {
      GoalBound(c, start, goal, g, cameFrom, open, w, n);
    }
  }

  lemma Shorter(c: Crawl, start: int, goal: int, length: nat, bound: nat)
    requires length <= bound && WithinFactor(c, start, goal, bound)
    ensures WithinFactor(c, start, goal, length)
  {
    forall w: nat, n: nat | w >= 1 && Spread(c, w) && ReachIn(GraphOf(c), start, goal, n)
      ensures length <= w * n
    {
    }
  }

  lemma LegReaches(c: Crawl, start: int, goal: int, steps: seq<Step>)
    requires Leg(c, start, goal, steps)
    ensures Reach(GraphOf(c), start, goal)
  {
    assert Origin(start, steps, 0) == start;
    FollowsReaches(c, start, steps);
  }

  lemma Unreachable(c: Crawl, start: int, goal: int, g: Scores, cameFrom: map<int, PrevInfo>)
    requires Searching(c, start, goal, g, cameFrom, map[], {})
    ensures !Reach(GraphOf(c), start, goal)
  {
    if n: nat :| ReachIn(GraphOf(c), start, goal, n) {
      Exhausted(c, start, goal, g, cameFrom, goal, n);
    }
  }

  method FindPath(c: Crawl, startRoom: int, goalRoom: int) returns (r: PathResult)
    ensures startRoom == goalRoom ==> r == Failed(PathDestMatch)
    ensures startRoom != goalRoom && (startRoom !in c || goalRoom !in c) ==> r == Failed(RoomNotFound)
    ensures startRoom != goalRoom && startRoom in c && goalRoom in c ==>
      if Reach(GraphOf(c), startRoom, goalRoom) then r.Path? else r == Failed(PathNotFound)
    ensures r.Path? ==> Leg(c, startRoom, goalRoom, r.steps) && WithinFactor(c, startRoom, goalRoom, |r.steps|)
  {
    hide Searching, Reach, Leg, WithinFactor, Unseen, Below, Heuristic, Chain, NoWorse, BackLeg;
    if startRoom == goalRoom {
      return Failed(PathDestMatch);
    }
    if startRoom !in c || goalRoom !in c {
      return Failed(RoomNotFound);
    }
    var cameFrom: map<int, PrevInfo> := map[];
    var gScore: Scores := (map id | id in c :: Infinite)[startRoom := Finite(0)];
    var fScore: Scores := (map id | id in c :: Infinite)[startRoom := Finite(Heuristic(c, startRoom, goalRoom))];
    var openSet := new OpenSet();
    openSet.Push(NodeRecord(startRoom, fScore[startRoom].v));
    Begin(c, startRoom, goalRoom, gScore);

    while |openSet.items| > 0
      invariant fresh(openSet) && openSet.Valid() && gScore.Keys == c.Keys
      invariant Searching(c, startRoom, goalRoom, gScore, cameFrom, openSet.Entries(), {})
      decreases Unseen(gScore), Below(gScore), openSet.Entries().Keys
    {
      ghost var open, g0 := openSet.Entries(), gScore;
      var current := openSet.Pop();
      TakeOff(c, startRoom, goalRoom, gScore, cameFrom, open, current.roomId);
      if current.roomId == goalRoom {
        GoalWithinFactor(c, startRoom, goalRoom, gScore, cameFrom, open);
        var path := Arrive(c, startRoom, goalRoom, gScore, cameFrom);
        Shorter(c, startRoom, goalRoom, |path|, gScore[goalRoom].v);
        LegReaches(c, startRoom, goalRoom, path);
        return Path(path);
      }
      gScore, fScore, cameFrom := ExpandNeighbours(c, startRoom, goalRoom, current.roomId, openSet, gScore, fScore, cameFrom);
      if gScore != g0 {
        Improves(gScore, g0);
      }
    }
    openSet.EmptyEntries();
    Unreachable(c, startRoom, goalRoom, gScore, cameFrom);
    return Failed(PathNotFound);
  }

  // Reconstruct the path: backwards along cameFrom, reversed in place, its last step flagged.
  method Arrive(c: Crawl, startRoom: int, goalRoom: int, ghost gScore: Scores, cameFrom: map<int, PrevInfo>)
    returns (path: seq<Step>)
    requires gScore.Keys == c.Keys && Chain(c, startRoom, gScore, cameFrom)
    requires goalRoom in c && gScore[goalRoom].Finite? && goalRoom != startRoom
    ensures Leg(c, startRoom, goalRoom, path) && |path| <= gScore[goalRoom].v
  {
    hide Chain, Leg;
    var back := Backtrace(c, startRoom, goalRoom, gScore, cameFrom);
    path := Reverse(back);
    Turned(c, startRoom, goalRoom, back, path);
    path := path[|path| - 1 := path[|path| - 1].(waypoint := true)];
  }

  // With unit exits the answer is a shortest route, re-opened rooms included.
  lemma UnitExitsGiveShortest(c: Crawl, start: int, goal: int, steps: seq<Step>)
    requires Spread(c, 1) && Leg(c, start, goal, steps) && WithinFactor(c, start, goal, |steps|)
    ensures IsDist(GraphOf(c), start, goal, |steps|)
  {
    assert Origin(start, steps, 0) == start;
    FollowsReaches(c, start, steps);
    forall n: nat | ReachIn(GraphOf(c), start, goal, n)
      ensures |steps| <= n
    {
      assert |steps| <= 1 * n;
    }
  }

  // The heuristic never overestimates the steps left.
  ghost predicate Admissible(c: Crawl) {
    forall a, b, n: nat :: ReachIn(GraphOf(c), a, b, n) ==> Heuristic(c, a, b) <= n
  }

  // That is so exactly when every exit between crawled rooms covers at most one unit of the grid.
  lemma AdmissibleMeansUnitExits(c: Crawl)
    ensures Admissible(c) <==> Spread(c, 1)
  {
    hide ReachIn, Distance;
    if Spread(c, 1) {
      forall a, b, n: nat | ReachIn(GraphOf(c), a, b, n)
        ensures Heuristic(c, a, b) <= n
      {
        HeuristicBound(c, 1, a, b, n);
      }
    } else {
      var r, e :| r in c && e in c[r].exits && c[r].exits[e] in c && Distance(c[r], c[c[r].exits[e]]) > 1;
      assert c[r].exits[e] in GraphOf(c)[r];
      ReachStep(GraphOf(c), r, c[r].exits[e]);
      assert Heuristic(c, r, c[r].exits[e]) > 1;
    }
  }

  // Two rooms two units apart, joined by one exit as "east-x2" does
  const WIDE_EXIT: Crawl := map[1 := Node(0, 0, 0, map["east-x2" := 2]), 2 := Node(2, 0, 0, map[])]

  lemma WideExitIsOverestimated()
    ensures ReachIn(GraphOf(WIDE_EXIT), 1, 2, 1) && Heuristic(WIDE_EXIT, 1, 2) == 2
    ensures !Spread(WIDE_EXIT, 1) && !Admissible(WIDE_EXIT)
  {
    var c := WIDE_EXIT;
    assert "east-x2" in c[1].exits && c[1].exits["east-x2"] == 2;
    assert 2 in GraphOf(c)[1];
    ReachStep(GraphOf(c), 1, 2);
    assert Distance(c[1], c[c[1].exits["east-x2"]]) == 2;
    AdmissibleMeansUnitExits(c);
  }
}
