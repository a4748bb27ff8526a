/**
 GetPath of internal/mapper/mapper.path.go: a route through several rooms, joined from single legs
 that are cached between calls. The cache may forget any entry at any addition.
 */
module GetPath {
  import opened Common
  import opened Graphs
  import opened MapPath

  datatype CacheValue = CacheValue(steps: seq<Step>, err: Option<PathError>)
  type Key = (int, int)

  // Some leg from one room to another exists within the crawl.
  ghost predicate LegExists(c: Crawl, a: int, b: int) {
    a != b && Reach(GraphOf(c), a, b)
  }

  // What FindPath promises of a leg it returns
  ghost predicate FoundLeg(c: Crawl, a: int, b: int, steps: seq<Step>) {
    Leg(c, a, b, steps) && WithinFactor(c, a, b, |steps|)
  }

  // Over the fixed map c, every cached success is a leg and every cached failure is final.
  ghost predicate CacheOk(c: Crawl, entries: map<Key, CacheValue>) {
    forall k :: k in entries ==> EntryOk(c, k, entries[k])
  }

  ghost predicate EntryOk(c: Crawl, k: Key, v: CacheValue) {
    if v.err.None? then FoundLeg(c, k.0, k.1, v.steps) else v.steps == [] && !LegExists(c, k.0, k.1)
  }

  class PathCache {
    var entries: map<Key, CacheValue>

    constructor ()
      ensures entries == map[]
    {
      entries := map[];
    }

    // Any other entries may go.
    method Add(k: Key, v: CacheValue)
      modifies this
      ensures k in entries && entries[k] == v
      ensures forall j :: j in entries && j != k ==> j in old(entries) && entries[j] == old(entries)[j]
      ensures forall c: Crawl :: CacheOk(c, old(entries)) && EntryOk(c, k, v) ==> CacheOk(c, entries)
    {
      hide EntryOk;
      var evicted: set<Key> :| evicted <= entries.Keys;
      entries := (entries - evicted)[k := v];
    }
  }

  // The rooms asked for, immediate repeats dropped.
  function Stops(now: int, ends: seq<int>): seq<int>
    decreases |ends|
  {
    if ends == [] then []
    else if ends[0] == now then Stops(now, ends[1..])
    else [ends[0]] + Stops(ends[0], ends[1..])
  }

  // No room comes twice in a row.
  ghost predicate NoTwins(s: seq<int>) {
    forall i :: 0 < i < |s| ==> s[i - 1] != s[i]
  }

  lemma TwinsCons(x: int, s: seq<int>)
    ensures NoTwins([x] + s) <==> NoTwins(s) && (s == [] || x != s[0])
  {
    var t := [x] + s;
    if s != [] {
      assert t[0] == x && t[1] == s[0];
    }
    if NoTwins(t) {
      forall i | 0 < i < |s|
        ensures s[i - 1] != s[i]
      {
        assert t[i + 1 - 1] != t[i + 1];
      }
    }
    if NoTwins(s) && (s == [] || x != s[0]) {
      forall i | 0 < i < |t|
        ensures t[i - 1] != t[i]
      {
        if i > 1 {
          assert s[i - 1 - 1] != s[i - 1];
        }
      }
    }
  }

  // These are the rooms asked for, in order, without the repeats: none is left, ...
  lemma {:induction false} StopsHaveNoTwins(now: int, ends: seq<int>)
    ensures NoTwins([now] + Stops(now, ends))
    decreases |ends|
  {
    if ends != [] {
      StopsHaveNoTwins(ends[0], ends[1..]);
      if ends[0] != now {
        TwinsCons(now, [ends[0]] + Stops(ends[0], ends[1..]));
      }
    }
  }

  // ... where there are none every room stays, ...
  lemma {:induction false} StopsWithoutTwins(now: int, ends: seq<int>)
    requires NoTwins([now] + ends)
    ensures Stops(now, ends) == ends
    decreases |ends|
  {
    if ends != [] {
      TwinsCons(now, ends);
      assert [ends[0]] + ends[1..] == ends;
      StopsWithoutTwins(ends[0], ends[1..]);
    }
  }

  // ... and a room asked for again right after itself changes nothing.
  lemma {:induction false} StopsDropTwin(now: int, ends: seq<int>, i: nat)
    requires i <= |ends|
    ensures Stops(now, ends[..i] + [([now] + ends)[i]] + ends[i..]) == Stops(now, ends)
    decreases |ends|
  {
    var x := ([now] + ends)[i];
    var again := ends[..i] + [x] + ends[i..];
    if i == 0 {
      assert again == [now] + ends && again[1..] == ends;
    } else {
      var rest := ends[1..];
      assert x == ([ends[0]] + rest)[i - 1];
      assert again[0] == ends[0] && again[1..] == rest[..i - 1] + [x] + rest[i - 1..];
      StopsDropTwin(ends[0], rest, i - 1);
    }
  }

  ghost predicate LegsExist(c: Crawl, now: int, stops: seq<int>)
    decreases |stops|
  {
    stops == [] || (LegExists(c, now, stops[0]) && LegsExist(c, stops[0], stops[1..]))
  }

  function Waypoints(steps: seq<Step>): seq<int> {
    if steps == [] then []
    else Waypoints(steps[..|steps| - 1]) +
         (if steps[|steps| - 1].waypoint then [steps[|steps| - 1].roomId] else [])
  }

  lemma {:induction false} WaypointsAppend(a: seq<Step>, b: seq<Step>)
    ensures Waypoints(a + b) == Waypoints(a) + Waypoints(b)
    decreases |b|
  {
    if b == [] {
      assert a + b == a;
    } else {
      var b' := b[..|b| - 1];
      assert (a + b)[..|a + b| - 1] == a + b';
      WaypointsAppend(a, b');
    }
  }

  lemma {:induction false} NoWaypoints(steps: seq<Step>)
    requires forall i :: 0 <= i < |steps| ==> !steps[i].waypoint
    ensures Waypoints(steps) == []
    decreases |steps|
  {
    if steps != [] {
      NoWaypoints(steps[..|steps| - 1]);
    }
  }

  lemma LegWaypoints(c: Crawl, a: int, b: int, steps: seq<Step>)
    requires Leg(c, a, b, steps)
    ensures Waypoints(steps) == [b]
  {
    NoWaypoints(steps[..|steps| - 1]);
  }

  // The legs of a route, one for each stop
  ghost predicate Route(c: Crawl, start: int, stops: seq<int>, steps: seq<Step>)
    decreases |stops|
  {
    if stops == [] then steps == []
    else exists i :: 0 <= i <= |steps| && FoundLeg(c, start, stops[0], steps[..i]) && Route(c, stops[0], stops[1..], steps[i..])
  }

  function Last(start: int, stops: seq<int>): int {
    if stops == [] then start else stops[|stops| - 1]
  }

  // A leg from where the route stands extends the route.
  lemma {:induction false} RouteExtends(c: Crawl, start: int, stops: seq<int>, steps: seq<Step>, goal: int, leg: seq<Step>)
    requires Route(c, start, stops, steps) && FoundLeg(c, Last(start, stops), goal, leg)
    ensures Route(c, start, stops + [goal], steps + leg)
    decreases |stops|
  {
    hide FoundLeg;
    var after := steps + leg;
    if stops == [] {
      assert after[..|leg|] == leg && after[|leg|..] == [] && ([] + [goal])[1..] == [];
      assert Route(c, goal, [], []);
    } else {
      var i :| 0 <= i <= |steps| && FoundLeg(c, start, stops[0], steps[..i]) && Route(c, stops[0], stops[1..], steps[i..]);
      assert Last(stops[0], stops[1..]) == Last(start, stops);
      RouteExtends(c, stops[0], stops[1..], steps[i..], goal, leg);
      assert after[..i] == steps[..i] && after[i..] == steps[i..] + leg;
      assert (stops + [goal])[1..] == stops[1..] + [goal];
    }
  }

  // A route is one contiguous walk, and its waypoints are its stops.
  lemma {:induction false} RouteFollows(c: Crawl, start: int, stops: seq<int>, steps: seq<Step>)
    requires Route(c, start, stops, steps)
    ensures Follows(c, start, steps) && Waypoints(steps) == stops
    decreases |stops|
  {
    hide WithinFactor, Leg, Follows, Waypoints;
    if stops == [] {
      NoSteps(c, start);
    } else {
      var i :| 0 <= i <= |steps| && FoundLeg(c, start, stops[0], steps[..i]) && Route(c, stops[0], stops[1..], steps[i..]);
      RouteFollows(c, stops[0], stops[1..], steps[i..]);
      LegWaypoints(c, start, stops[0], steps[..i]);
      WaypointsAppend(steps[..i], steps[i..]);
      assert steps == steps[..i] + steps[i..] && stops == [stops[0]] + stops[1..];
      FollowsOn(c, start, steps, i, stops[0]);
    }
  }

  lemma FollowsOn(c: Crawl, start: int, steps: seq<Step>, i: nat, stop: int)
    requires i <= |steps| && Leg(c, start, stop, steps[..i]) && Follows(c, stop, steps[i..])
    ensures Follows(c, start, steps)
  {
    hide Leg, Follows;
    forall k | 0 <= k < |steps|
      ensures StepFrom(c, start, steps, k)
    {
      if k < i {
        StepInFront(c, start, steps, i, stop, k);
      } else {
        StepInRest(c, start, steps, i, stop, k);
      }
    }
    StepsFollow(c, start, steps);
  }

  ghost predicate StepFrom(c: Crawl, start: int, steps: seq<Step>, k: int) {
    && 0 <= k < |steps| && Origin(start, steps, k) in c
    && steps[k].exitName in c[Origin(start, steps, k)].exits
    && c[Origin(start, steps, k)].exits[steps[k].exitName] == steps[k].roomId
    && steps[k].roomId in c
  }

  lemma StepsFollow(c: Crawl, start: int, steps: seq<Step>)
    requires forall k :: 0 <= k < |steps| ==> StepFrom(c, start, steps, k)
    ensures Follows(c, start, steps)
  {
    forall k | 0 <= k < |steps|
      ensures Origin(start, steps, k) in c && steps[k].exitName in c[Origin(start, steps, k)].exits
      ensures c[Origin(start, steps, k)].exits[steps[k].exitName] == steps[k].roomId && steps[k].roomId in c
    {
      assert StepFrom(c, start, steps, k);
    }
  }

  lemma StepInFront(c: Crawl, start: int, steps: seq<Step>, i: nat, stop: int, k: nat)
    requires k < i <= |steps| && Leg(c, start, stop, steps[..i])
    ensures StepFrom(c, start, steps, k)
  {
    assert Origin(start, steps, k) == Origin(start, steps[..i], k) && steps[k] == steps[..i][k];
  }

  lemma LegArrives(c: Crawl, a: int, b: int, steps: seq<Step>)
    requires Leg(c, a, b, steps)
    ensures |steps| > 0 && steps[|steps| - 1].roomId == b
  {
  }

  lemma StepInRest(c: Crawl, start: int, steps: seq<Step>, i: nat, stop: int, k: nat)
    requires i <= k < |steps| && Leg(c, start, stop, steps[..i]) && Follows(c, stop, steps[i..])
    ensures StepFrom(c, start, steps, k)
  {
    hide Leg;
    LegArrives(c, start, stop, steps[..i]);
    var rest := steps[i..];
    assert StepFrom(c, stop, rest, k - i);
    assert rest[k - i] == steps[k];
    if k == i {
      assert Origin(start, steps, k) == stop == Origin(stop, rest, 0);
    } else {
      assert rest[k - i - 1] == steps[k - 1];
    }
  }

  // n is the sum of the distances from stop to stop.
  ghost predicate TotalDistance(c: Crawl, start: int, stops: seq<int>, n: nat)
    decreases |stops|
  {
    if stops == [] then n == 0
    else exists d: nat :: d <= n && IsDist(GraphOf(c), start, stops[0], d) && TotalDistance(c, stops[0], stops[1..], n - d)
  }

  // With unit exits every leg of a route is a shortest one, so no route through the stops is shorter.
  lemma {:induction false} UnitExitsGiveShortestRoute(c: Crawl, start: int, stops: seq<int>, steps: seq<Step>)
    requires Spread(c, 1) && Route(c, start, stops, steps)
    ensures TotalDistance(c, start, stops, |steps|)
    decreases |stops|
  {
    hide Spread, Leg, WithinFactor, IsDist;
    if stops != [] {
      var i :| 0 <= i <= |steps| && FoundLeg(c, start, stops[0], steps[..i]) && Route(c, stops[0], stops[1..], steps[i..]);
      UnitExitsGiveShortest(c, start, stops[0], steps[..i]);
      UnitExitsGiveShortestRoute(c, stops[0], stops[1..], steps[i..]);
    }
  }

  // found is the map of the start room's zone, or None when the room cannot be loaded or mapped.
  method GetPath(found: Option<Crawl>, cache: PathCache, startRoomId: int, endRoomIds: seq<int>) returns (r: PathResult)
    requires found.Some? ==> CacheOk(found.value, cache.entries)
    modifies cache
    ensures found.Some? ==> CacheOk(found.value, cache.entries)
    ensures r.Path? <==> found.Some? && Stops(startRoomId, endRoomIds) != [] &&
                         LegsExist(found.value, startRoomId, Stops(startRoomId, endRoomIds))
    ensures r.Path? ==> Route(found.value, startRoomId, Stops(startRoomId, endRoomIds), r.steps)
    ensures r.Path? ==> Follows(found.value, startRoomId, r.steps) && Waypoints(r.steps) == Stops(startRoomId, endRoomIds)
    ensures found.None? || endRoomIds == [] ==> r == Failed(PathNotFound)
    ensures found.Some? && endRoomIds != [] && Stops(startRoomId, endRoomIds) == [] ==> r == Failed(PathDestMatch)
  {
    hide Reach, FoundLeg, Follows, Origin, Route, CacheOk, EntryOk, Waypoints, LegExists, LegsExist, Stops, GraphOf;
    NoStops(startRoomId);
    if |endRoomIds| == 0 || found.None? {
      return Failed(PathNotFound);
    }
    var m := found.value;
    var rNow := startRoomId;
    var finalPath: seq<Step> := [];
    ghost var done: seq<int> := [];
    NoRoute(m, startRoomId);
    assert endRoomIds[0..] == endRoomIds;
    for i := 0 to |endRoomIds|
      invariant CacheOk(m, cache.entries)
      invariant Route(m, startRoomId, done, finalPath) && Last(startRoomId, done) == rNow
      invariant finalPath == [] <==> done == []
      invariant done + Stops(rNow, endRoomIds[i..]) == Stops(startRoomId, endRoomIds)
      invariant LegsExist(m, startRoomId, Stops(startRoomId, endRoomIds)) <==> LegsExist(m, rNow, Stops(rNow, endRoomIds[i..]))
    {
      var roomId := endRoomIds[i];
      NextStop(m, rNow, endRoomIds, i);
      if rNow == roomId {
        continue;
      }
      var leg := LegFor(m, cache, rNow, roomId);
      if leg.Failed? {
        return leg;
      }
      RouteExtends(m, startRoomId, done, finalPath, roomId, leg.steps);
      LegIsSome(m, rNow, roomId, leg.steps);
      finalPath := finalPath + leg.steps;
      done := done + [roomId];
      rNow := roomId;
    }
    RouteFollows(m, startRoomId, done, finalPath);
    assert endRoomIds[|endRoomIds|..] == [] && done + [] == done;
    NoStops(rNow);
    NoLegs(m, rNow);
    if |finalPath| == 0 {
      return Failed(PathDestMatch);
    }
    return Path(finalPath);
  }

  lemma NoStops(now: int)
    ensures Stops(now, []) == []
  {
  }

  lemma NoLegs(c: Crawl, now: int)
    ensures LegsExist(c, now, [])
  {
  }

  lemma NextStop(c: Crawl, now: int, ends: seq<int>, i: nat)
    requires i < |ends|
    ensures ends[i] == now ==> Stops(now, ends[i..]) == Stops(now, ends[i + 1..])
    ensures ends[i] != now ==>
      && Stops(now, ends[i..]) == [ends[i]] + Stops(ends[i], ends[i + 1..])
      && (LegsExist(c, now, Stops(now, ends[i..])) <==> LegExists(c, now, ends[i]) && LegsExist(c, ends[i], Stops(ends[i], ends[i + 1..])))
  {
    hide LegExists;
    assert ends[i..][1..] == ends[i + 1..];
    if ends[i] != now {
      var stops := Stops(now, ends[i..]);
      assert stops[0] == ends[i] && stops[1..] == Stops(ends[i], ends[i + 1..]);
    }
  }

  lemma NoSteps(c: Crawl, start: int)
    ensures Follows(c, start, []) && Waypoints([]) == []
  {
  }

  lemma NoRoute(c: Crawl, start: int)
    ensures Route(c, start, [], [])
  {
  }

  lemma LegIsSome(c: Crawl, a: int, b: int, steps: seq<Step>)
    requires FoundLeg(c, a, b, steps)
    ensures steps != [] && LegExists(c, a, b)
  {
    assert Origin(a, steps, 0) == a;
    LegReaches(c, a, b, steps);
    assert steps[|steps| - 1].roomId == b && steps[|steps| - 1].roomId != a;
  }

  // One leg: from the cache, or searched for and then cached. A failure met again in the cache
  // comes back with the error it was cached under, a new one always as PathNotFound.
  method LegFor(m: Crawl, cache: PathCache, rNow: int, roomId: int) returns (leg: PathResult)
    requires CacheOk(m, cache.entries) && rNow != roomId
    modifies cache
    ensures CacheOk(m, cache.entries)
    ensures leg.Path? <==> LegExists(m, rNow, roomId)
    ensures leg.Path? ==> FoundLeg(m, rNow, roomId, leg.steps)
    ensures leg.Failed? && (rNow, roomId) !in old(cache.entries) ==> leg == Failed(PathNotFound)
  {
    hide Leg, WithinFactor;
    var k := (rNow, roomId);
    if k in cache.entries {
      var hit := cache.entries[k];
      if hit.err.Some? {
        return Failed(hit.err.value);
      }
      LegReaches(m, rNow, roomId, hit.steps);
      return Path(hit.steps);
    }
    if roomId !in m {
      NotReached(m, rNow, roomId);
      cache.Add(k, CacheValue([], Some(PathNotFound)));
      return Failed(PathNotFound);
    }
    var p := FindPath(m, rNow, roomId);
    if p.Failed? {
      NotReached(m, rNow, roomId);
      cache.Add(k, CacheValue([], Some(p.err)));
      return Failed(PathNotFound);
    }
    LegReaches(m, rNow, roomId, p.steps);
    cache.Add(k, CacheValue(p.steps, None));
    return Path(p.steps);
  }

  lemma NotReached(c: Crawl, a: int, b: int)
    ensures a !in c || b !in c ==> !Reach(GraphOf(c), a, b)
  {
    if n: nat :| ReachIn(GraphOf(c), a, b, n) {
    }
  }
}
