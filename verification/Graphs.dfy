/**
 Finite directed graphs, walks counted in steps, and the invariant of a breadth-first search.
 The maze generator, the map crawler and the path finder all state their results in these terms.
 */
module Graphs {

  // Each vertex is mapped to the set of vertices one step away.
  type Graph<V(==)> = map<V, set<V>>

  ghost predicate Symmetric<V>(g: Graph<V>) {
    forall v, w :: v in g && w in g && w in g[v] ==> v in g[w]
  }

  // g2 has the vertices of g1 and every step of g1
  ghost predicate Extends<V>(g1: Graph<V>, g2: Graph<V>) {
    forall v :: v in g1 ==> v in g2 && g1[v] <= g2[v]
  }

  // g1 was cut from g0: the steps of g0 between vertices left are still there.
  ghost predicate Survives<V>(g0: Graph<V>, g1: Graph<V>) {
    g1.Keys <= g0.Keys && forall v, w :: v in g1 && w in g1 && w in g0[v] ==> w in g1[v]
  }

  lemma SurvivesTwice<V>(g0: Graph<V>, g1: Graph<V>, g2: Graph<V>)
    requires Survives(g0, g1) && Survives(g1, g2)
    ensures Survives(g0, g2)
  {
  }

  lemma RemoveSurvives<V>(g: Graph<V>, r: V)
    ensures Survives(g, Remove(g, r))
  {
  }

  // b is exactly n steps from a along some walk (vertices may repeat)
  ghost predicate ReachIn<V>(g: Graph<V>, a: V, b: V, n: nat)
    decreases n
  {
    && a in g
    && b in g
    && if n == 0 then a == b else exists c :: c in g && ReachIn(g, a, c, n - 1) && b in g[c]
  }

  ghost predicate Reach<V>(g: Graph<V>, a: V, b: V) {
    exists n: nat :: ReachIn(g, a, b, n)
  }

  ghost predicate ConnectedFrom<V>(g: Graph<V>, s: V) {
    forall v :: v in g ==> Reach(g, s, v)
  }

  // n is the length of a shortest walk from a to b
  ghost predicate IsDist<V>(g: Graph<V>, a: V, b: V, n: nat) {
    ReachIn(g, a, b, n) && forall k: nat :: ReachIn(g, a, b, k) ==> n <= k
  }

  ghost predicate Walk<V>(g: Graph<V>, w: seq<V>) {
    && |w| > 0
    && (forall i :: 0 <= i < |w| ==> w[i] in g)
    && (forall i :: 0 <= i < |w| - 1 ==> w[i + 1] in g[w[i]])
  }

  ghost predicate WalkBetween<V>(g: Graph<V>, w: seq<V>, a: V, b: V) {
    Walk(g, w) && w[0] == a && w[|w| - 1] == b
  }

  function Remove<V>(g: Graph<V>, r: V): Graph<V> {
    map v | v in g && v != r :: g[v] - {r}
  }

  function Edges<V>(g: Graph<V>): set<(V, V)> {
    set v, w | v in g && w in g[v] :: (v, w)
  }

  // The last step of a walk
  lemma LastStep<V>(g: Graph<V>, a: V, b: V, n: nat) returns (c: V)
    requires ReachIn(g, a, b, n) && n > 0
    ensures c in g && ReachIn(g, a, c, n - 1) && b in g[c]
  {
    c :| c in g && ReachIn(g, a, c, n - 1) && b in g[c];
  }

  // Distances of neighbours differ by one at most.
  lemma NeighbourDistance<V>(g: Graph<V>, s: V, v: V, w: V, m: nat, n: nat)
    requires Symmetric(g) && v in g && w in g && w in g[v] && IsDist(g, s, v, m) && IsDist(g, s, w, n)
    ensures m <= n + 1 && n <= m + 1
  {
    assert ReachIn(g, s, w, m + 1) && ReachIn(g, s, v, n + 1);
  }

  lemma OneDistance<V>(g: Graph<V>, s: V, v: V, m: nat, n: nat)
    requires IsDist(g, s, v, m) && IsDist(g, s, v, n)
    ensures m == n
  {
  }

  // Only the source is at distance 0; every other vertex is one further than some neighbour.
  lemma DistanceByOne<V>(g: Graph<V>, s: V, v: V, n: nat) returns (c: V)
    requires IsDist(g, s, v, n)
    ensures n == 0 <==> v == s
    ensures n > 0 ==> c in g && v in g[c] && IsDist(g, s, c, n - 1)
  {
    c := v;
    if n > 0 {
      c := LastStep(g, s, v, n);
      forall k: nat | ReachIn(g, s, c, k)
        ensures n - 1 <= k
      {
        assert ReachIn(g, s, v, k + 1);
      }
    }
    if v == s {
      assert ReachIn(g, s, v, 0);
    }
  }

  lemma {:induction false} ReachInTrans<V>(g: Graph<V>, a: V, b: V, c: V, m: nat, n: nat)
    requires ReachIn(g, a, b, m) && ReachIn(g, b, c, n)
    ensures ReachIn(g, a, c, m + n)
    decreases n
  {
    if n > 0 {
      var d :| d in g && ReachIn(g, b, d, n - 1) && c in g[d];
      ReachInTrans(g, a, b, d, m, n - 1);
      assert ReachIn(g, a, d, m + n - 1);
    }
  }

  lemma ReachTrans<V>(g: Graph<V>, a: V, b: V, c: V)
    requires Reach(g, a, b) && Reach(g, b, c)
    ensures Reach(g, a, c)
  {
    var m: nat :| ReachIn(g, a, b, m);
    var n: nat :| ReachIn(g, b, c, n);
    ReachInTrans(g, a, b, c, m, n);
  }

  lemma ReachRefl<V>(g: Graph<V>, a: V)
    requires a in g
    ensures ReachIn(g, a, a, 0) && Reach(g, a, a)
  {
    assert ReachIn(g, a, a, 0);
  }

  lemma ReachStep<V>(g: Graph<V>, a: V, b: V)
    requires a in g && b in g && b in g[a]
    ensures ReachIn(g, a, b, 1) && Reach(g, a, b)
  {
    assert ReachIn(g, a, a, 0);
    assert ReachIn(g, a, b, 1);
  }

  lemma {:induction false} ReachInSym<V>(g: Graph<V>, a: V, b: V, n: nat)
    requires Symmetric(g) && ReachIn(g, a, b, n)
    ensures ReachIn(g, b, a, n)
    decreases n
  {
    if n > 0 {
      var c :| c in g && ReachIn(g, a, c, n - 1) && b in g[c];
      ReachInSym(g, a, c, n - 1);
      ReachStep(g, b, c);
      ReachInTrans(g, b, c, a, 1, n - 1);
    }
  }

  lemma ConnectedFromAny<V>(g: Graph<V>, r: V, s: V)
    requires Symmetric(g) && r in g && s in g && ConnectedFrom(g, r)
    ensures ConnectedFrom(g, s)
  {
    var n: nat :| ReachIn(g, r, s, n);
    ReachInSym(g, r, s, n);
    forall v | v in g
      ensures Reach(g, s, v)
    {
      ReachTrans(g, s, r, v);
    }
  }

  lemma {:induction false} ReachInExtends<V>(g1: Graph<V>, g2: Graph<V>, a: V, b: V, n: nat)
    requires Extends(g1, g2) && ReachIn(g1, a, b, n)
    ensures ReachIn(g2, a, b, n)
    decreases n
  {
    if n > 0 {
      var c :| c in g1 && ReachIn(g1, a, c, n - 1) && b in g1[c];
      ReachInExtends(g1, g2, a, c, n - 1);
      assert c in g2 && b in g2[c];
    }
  }

  lemma ReachExtends<V>(g1: Graph<V>, g2: Graph<V>, a: V, b: V)
    requires Extends(g1, g2) && Reach(g1, a, b)
    ensures Reach(g2, a, b)
  {
    var n: nat :| ReachIn(g1, a, b, n);
    ReachInExtends(g1, g2, a, b, n);
  }

  // A set that holds a and is closed under steps holds everything reachable from a.
  lemma {:induction false} ReachStaysIn<V>(g: Graph<V>, S: set<V>, a: V, b: V, n: nat)
    requires a in S && ReachIn(g, a, b, n)
    requires forall v, w :: v in S && v in g && w in g[v] && w in g ==> w in S
    ensures b in S
    decreases n
  {
    if n > 0 {
      var c :| c in g && ReachIn(g, a, c, n - 1) && b in g[c];
      ReachStaysIn(g, S, a, c, n - 1);
    }
  }

  lemma {:induction false} WalkReaches<V>(g: Graph<V>, w: seq<V>)
    requires Walk(g, w)
    ensures ReachIn(g, w[0], w[|w| - 1], |w| - 1)
    decreases |w|
  {
    if |w| > 1 {
      var u := w[..|w| - 1];
      assert Walk(g, u);
      WalkReaches(g, u);
      assert w[|w| - 2 + 1] in g[w[|w| - 2]];
    }
  }

  lemma WalkPrepend<V>(g: Graph<V>, v: V, w: seq<V>)
    requires v in g && (w == [] || (Walk(g, w) && w[0] in g[v]))
    ensures Walk(g, [v] + w)
  {
    var u := [v] + w;
    assert forall i :: 0 < i < |u| ==> u[i] == w[i - 1];
    forall i | 0 <= i < |u| - 1
      ensures u[i + 1] in g[u[i]]
    {
      if i > 0 {
        assert w[i - 1 + 1] in g[w[i - 1]];
      }
    }
  }

  lemma {:induction false} ReachHasWalk<V>(g: Graph<V>, a: V, b: V, n: nat) returns (w: seq<V>)
    requires ReachIn(g, a, b, n)
    ensures WalkBetween(g, w, a, b) && |w| == n + 1
    decreases n
  {
    if n == 0 {
      w := [a];
    } else {
      var c :| c in g && ReachIn(g, a, c, n - 1) && b in g[c];
      var u := ReachHasWalk(g, a, c, n - 1);
      w := u + [b];
    }
  }

  // ---------- deleting a vertex ----------

  // Every two neighbours of r remain connected when r is gone.
  ghost predicate Bypassed<V>(g: Graph<V>, r: V)
    requires r in g
  {
    forall u, v :: u in g[r] && v in g[r] && u in g && v in g && u != r && v != r ==> Reach(Remove(g, r), u, v)
  }

  lemma WalkOfNoSteps<V>(g: Graph<V>, a: V, b: V)
    requires ReachIn(g, a, b, 0)
    ensures a == b && a in g
  {
  }

  lemma Bypass<V>(g: Graph<V>, r: V, u: V, v: V)
    requires r in g && Bypassed(g, r) && u in g[r] && v in g[r] && u in g && v in g && u != r && v != r
    ensures Reach(Remove(g, r), u, v)
  {
  }

  // A walk of g that starts off r either survives the removal of r or, if it ends on r,
  // survives up to some neighbour of r.
  lemma {:induction false} WalkAround<V>(g: Graph<V>, r: V, a: V, b: V, n: nat) returns (u: V)
    requires r in g && Symmetric(g) && Bypassed(g, r)
    requires a != r && ReachIn(g, a, b, n)
    ensures b != r ==> Reach(Remove(g, r), a, b)
    ensures b == r ==> u in g[r] && u in g && u != r && Reach(Remove(g, r), a, u)
    decreases n
  {
    hide Reach, ReachIn, Bypassed;
    var h := Remove(g, r);
    u := a;
    if n == 0 {
      WalkOfNoSteps(g, a, b);
      ReachRefl(h, a);
    } else {
      EndInGraph(g, a, b, n);
      var c := LastStep(g, a, b, n);
      var u' := WalkAround(g, r, a, c, n - 1);
      if c == r {
        if b == r {
          u := u';
        } else {
          Bypass(g, r, u', b);
          ReachTrans(h, a, u', b);
        }
      } else if b == r {
        u := c;
      } else {
        ReachStep(h, c, b);
        ReachTrans(h, a, c, b);
      }
    }
  }

  lemma EndInGraph<V>(g: Graph<V>, a: V, b: V, n: nat)
    requires ReachIn(g, a, b, n)
    ensures a in g && b in g
  {
  }

  // The articulation test is enough: a vertex whose neighbours bypass it can be deleted.
  lemma RemoveKeepsConnected<V>(g: Graph<V>, s: V, r: V)
    requires r in g && s in g && s != r && Symmetric(g)
    requires Bypassed(g, r) && ConnectedFrom(g, s)
    ensures ConnectedFrom(Remove(g, r), s)
  {
    forall v | v in Remove(g, r)
      ensures Reach(Remove(g, r), s, v)
    {
      var n: nat :| ReachIn(g, s, v, n);
      var _ := WalkAround(g, r, s, v, n);
    }
  }

  // ... and it is necessary: if the rest stays connected, the neighbours bypass the vertex.
  lemma ConnectedIsBypassed<V>(g: Graph<V>, s: V, r: V)
    requires r in g && s in g && s != r && Symmetric(g)
    requires ConnectedFrom(Remove(g, r), s)
    ensures Bypassed(g, r)
  {
    var h := Remove(g, r);
    assert Symmetric(h);
    forall u, v | u in g[r] && v in g[r] && u in g && v in g && u != r && v != r
      ensures Reach(h, u, v)
    {
      assert u in h && v in h;
      var n: nat :| ReachIn(h, s, u, n);
      ReachInSym(h, s, u, n);
      ReachTrans(h, u, s, v);
    }
  }

  // ---------- breadth-first search ----------

  // Each vertex seen so far is labelled with the length of some walk from s.
  ghost predicate Labelled<V>(g: Graph<V>, s: V, d: map<V, nat>) {
    s in d && d[s] == 0 && forall v :: v in d ==> ReachIn(g, s, v, d[v])
  }

  ghost predicate Settled<V>(g: Graph<V>, d: map<V, nat>, v: V)
    requires v in d
  {
    v in g && forall w :: w in g[v] ==> w in d && d[w] <= d[v] + 1
  }

  // Labels along the queue do not decrease, and none seen exceeds the front's by more than one.
  ghost predicate QueueOrdered<V>(d: map<V, nat>, queue: seq<V>) {
    && (forall i :: 0 <= i < |queue| ==> queue[i] in d)
    && (forall i, j :: 0 <= i < j < |queue| ==> d[queue[i]] <= d[queue[j]])
    && (forall v :: v in d && |queue| > 0 ==> d[v] <= d[queue[0]] + 1)
  }

  ghost predicate Bfs<V>(g: Graph<V>, s: V, d: map<V, nat>, queue: seq<V>) {
    && Labelled(g, s, d)
    && QueueOrdered(d, queue)
    && (forall v :: v in d ==> v in queue || Settled(g, d, v))
  }

  // While the neighbours of cur, just taken off the queue, are being looked at.
  ghost predicate BfsAt<V>(g: Graph<V>, s: V, d: map<V, nat>, queue: seq<V>, cur: V) {
    && cur in d
    && Labelled(g, s, d)
    && QueueOrdered(d, [cur] + queue)
    && (forall v :: v in d && v != cur ==> v in queue || Settled(g, d, v))
  }

  lemma BfsStart<V>(g: Graph<V>, s: V)
    requires s in g
    ensures Bfs(g, s, map[s := 0], [s])
  {
  }

  lemma BfsTake<V>(g: Graph<V>, s: V, d: map<V, nat>, queue: seq<V>)
    requires Bfs(g, s, d, queue) && |queue| > 0
    ensures queue[0] in d && BfsAt(g, s, d, queue[1..], queue[0])
  {
    assert [queue[0]] + queue[1..] == queue;
  }

  // A neighbour not seen before gets the next label and joins the queue.
  lemma BfsVisit<V>(g: Graph<V>, s: V, d: map<V, nat>, queue: seq<V>, cur: V, w: V)
    requires BfsAt(g, s, d, queue, cur)
    requires cur in g && w in g && w in g[cur] && w !in d
    ensures BfsAt(g, s, d[w := d[cur] + 1], queue + [w], cur)
  {
    var d' := d[w := d[cur] + 1];
    var q, q' := [cur] + queue, [cur] + (queue + [w]);
    assert q' == q + [w];
    assert q[0] == cur && q'[0] == cur;
    assert forall i :: 0 <= i < |q| ==> q'[i] == q[i] && q[i] in d;
    forall v | v in d'
      ensures ReachIn(g, s, v, d'[v])
    {
      if v == w {
        ReachStep(g, cur, w);
        ReachInTrans(g, s, cur, w, d[cur], 1);
      }
    }
  }

  lemma BfsDone<V>(g: Graph<V>, s: V, d: map<V, nat>, queue: seq<V>, cur: V)
    requires BfsAt(g, s, d, queue, cur) && cur in g
    requires forall w :: w in g[cur] ==> w in d
    ensures Bfs(g, s, d, queue)
  {
    var q := [cur] + queue;
    assert q[0] == cur;
    assert forall i :: 0 <= i < |queue| ==> queue[i] == q[i + 1];
    assert forall w :: w in g[cur] ==> d[w] <= d[cur] + 1;
    if |queue| > 0 {
      assert d[q[0]] <= d[q[1]];
    }
  }

  // Everything no further than the front of the queue carries a label no larger than its distance.
  lemma {:induction false} BfsShortest<V>(g: Graph<V>, s: V, d: map<V, nat>, queue: seq<V>, v: V, n: nat)
    requires Bfs(g, s, d, queue)
    requires |queue| > 0 ==> n <= d[queue[0]]
    requires ReachIn(g, s, v, n)
    ensures v in d && d[v] <= n
    decreases n
  {
    if n > 0 {
      var c :| c in g && ReachIn(g, s, c, n - 1) && v in g[c];
      BfsShortest(g, s, d, queue, c, n - 1);
    }
  }

  // When the queue is empty the labels are exactly the distances of the reachable vertices.
  lemma BfsFinished<V>(g: Graph<V>, s: V, d: map<V, nat>)
    requires Bfs(g, s, d, [])
    ensures forall v :: v in d <==> Reach(g, s, v)
    ensures forall v :: v in d ==> IsDist(g, s, v, d[v])
  {
    forall v, n: nat | ReachIn(g, s, v, n)
      ensures v in d && d[v] <= n
    {
      BfsShortest(g, s, d, [], v, n);
    }
    forall v | v in d
      ensures Reach(g, s, v) && IsDist(g, s, v, d[v])
    {
      assert ReachIn(g, s, v, d[v]);
    }
  }

  // The vertex at the front of the queue already carries its distance.
  lemma BfsFront<V>(g: Graph<V>, s: V, d: map<V, nat>, queue: seq<V>)
    requires Bfs(g, s, d, queue) && |queue| > 0
    ensures IsDist(g, s, queue[0], d[queue[0]])
  {
    forall k: nat | ReachIn(g, s, queue[0], k)
      ensures d[queue[0]] <= k
    {
      if k < d[queue[0]] {
        BfsShortest(g, s, d, queue, queue[0], k);
      }
    }
  }

  // Every labelled vertex but s remembers a predecessor one step closer.
  ghost predicate Parents<V>(g: Graph<V>, s: V, d: map<V, nat>, parent: map<V, V>) {
    && s !in parent
    && (forall v :: v in d && v != s ==> v in parent)
    && (forall v :: v in parent ==>
          v in d && parent[v] in d && parent[v] in g && v in g[parent[v]] && d[v] == d[parent[v]] + 1)
  }

  lemma ParentsVisit<V>(g: Graph<V>, s: V, d: map<V, nat>, parent: map<V, V>, cur: V, w: V)
    requires Parents(g, s, d, parent) && s in d && cur in d && cur in g && w in g[cur] && w !in d
    ensures Parents(g, s, d[w := d[cur] + 1], parent[w := cur])
  {
  }
}
