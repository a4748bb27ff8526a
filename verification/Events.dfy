/**
 The event queue of internal/events/events.go: a heap ordered by priority and age, a set of the
 unique ids waiting in it, and a list of events put back until the next pass.
 */
module Events {
  import opened Common
  import HeapOrder

  // id names one enqueued event, so that statements can follow it from pass to pass.
  datatype Event =
    | MobInput(id: nat, mobInstanceId: int, readyTurn: nat)
    | UserInput(id: nat, userId: int, readyTurn: nat, blockInput: bool, unBlockInput: bool)
    | Other(id: nat, unique: Option<string>)

  // UniqueID, for the events that have one
  function UniqueID(e: Event): Option<string> {
    if e.Other? then e.unique else None
  }

  datatype PrioritizedEvent = PrioritizedEvent(event: Event, priority: int, order: nat)
  datatype Requeue = Requeue(evt: Event, priority: int)
  datatype ListenerReturn = Continue | Cancel | CancelAndRequeue

  predicate Less(p: PrioritizedEvent, q: PrioritizedEvent) {
    if p.priority == q.priority then p.order < q.order else p.priority < q.priority
  }

  datatype Queue = Queue(globalQueue: set<PrioritizedEvent>, requeues: seq<Requeue>, orderCounter: nat, uniqueMap: set<string>)

  // Orders are distinct and issued already; uniqueMap holds exactly the unique ids in the heap, each
  // of them once.
  ghost predicate Valid(s: Queue) {
    && (forall p, q :: p in s.globalQueue && q in s.globalQueue && p.order == q.order ==> p == q)
    && (forall p :: p in s.globalQueue ==> p.order <= s.orderCounter)
    && (forall u :: u in s.uniqueMap <==> exists p :: p in s.globalQueue && UniqueID(p.event) == Some(u))
    && (forall p, q :: p in s.globalQueue && q in s.globalQueue && UniqueID(p.event).Some? && UniqueID(p.event) == UniqueID(q.event) ==> p == q)
  }

  // AddToQueue and reAddToQueue
  function Enqueue(s: Queue, e: Event, priority: int): Queue {
    var uid := UniqueID(e);
    if uid.Some? && uid.value in s.uniqueMap then s
    else
      s.(globalQueue := s.globalQueue + {PrioritizedEvent(e, priority, s.orderCounter + 1)},
         orderCounter := s.orderCounter + 1,
         uniqueMap := if uid.Some? then s.uniqueMap + {uid.value} else s.uniqueMap)
  }

  function EnqueueAll(s: Queue, adds: seq<Requeue>): Queue
    decreases |adds|
  {
    if adds == [] then s else EnqueueAll(Enqueue(s, adds[0].evt, adds[0].priority), adds[1..])
  }

  // The start of ProcessEvents: the events put back re-enter the heap in order.
  function Merged(s: Queue): Queue {
    EnqueueAll(s, s.requeues).(requeues := [])
  }

  ghost predicate IsLeast(q: set<PrioritizedEvent>, p: PrioritizedEvent) {
    p in q && forall r :: r in q && r != p ==> Less(p, r)
  }

  lemma {:induction false} LeastExists(q: set<PrioritizedEvent>)
    requires q != {} && forall p, r :: p in q && r in q && p.order == r.order ==> p == r
    ensures exists p :: IsLeast(q, p)
    decreases q
  {
    var x :| x in q;
    if q == {x} {
      assert IsLeast(q, x);
    } else {
      LeastExists(q - {x});
      var y :| IsLeast(q - {x}, y);
      if Less(x, y) {
        assert forall r :: r in q && r != x ==> r == y || (r in q - {x} && Less(y, r));
        assert IsLeast(q, x);
      } else {
        assert IsLeast(q, y);
      }
    }
  }

  ghost function Least(s: Queue): PrioritizedEvent
    requires Valid(s) && s.globalQueue != {}
    ensures IsLeast(s.globalQueue, Least(s))
  {
    LeastExists(s.globalQueue);
    var p :| IsLeast(s.globalQueue, p);
    p
  }

  lemma LeastIsUnique(s: Queue, p: PrioritizedEvent)
    requires Valid(s) && IsLeast(s.globalQueue, p)
    ensures p == Least(s)
  {
    var q := Least(s);
    assert p != q ==> !(Less(p, q) && Less(q, p));
  }

  function Popped(s: Queue, p: PrioritizedEvent): Queue {
    s.(globalQueue := s.globalQueue - {p},
       uniqueMap := if UniqueID(p.event).Some? then s.uniqueMap - {UniqueID(p.event).value} else s.uniqueMap)
  }

  lemma EnqueueValid(s: Queue, e: Event, priority: int)
    requires Valid(s)
    ensures Valid(Enqueue(s, e, priority))
  {
    var s' := Enqueue(s, e, priority);
    if s' != s {
      var n := PrioritizedEvent(e, priority, s.orderCounter + 1);
      forall u | u in s'.uniqueMap
        ensures exists p :: p in s'.globalQueue && UniqueID(p.event) == Some(u)
      {
        if u in s.uniqueMap {
          var p :| p in s.globalQueue && UniqueID(p.event) == Some(u);
          assert p in s'.globalQueue;
        } else {
          assert n in s'.globalQueue;
        }
      }
    }
  }

  lemma {:induction false} EnqueueAllValid(s: Queue, adds: seq<Requeue>)
    requires Valid(s)
    ensures Valid(EnqueueAll(s, adds))
    decreases |adds|
  {
    if adds != [] {
      EnqueueValid(s, adds[0].evt, adds[0].priority);
      EnqueueAllValid(Enqueue(s, adds[0].evt, adds[0].priority), adds[1..]);
    }
  }

  lemma PoppedValid(s: Queue, p: PrioritizedEvent)
    requires Valid(s) && p in s.globalQueue
    ensures Valid(Popped(s, p))
  {
    var s' := Popped(s, p);
    forall u | u in s'.uniqueMap
      ensures exists q :: q in s'.globalQueue && UniqueID(q.event) == Some(u)
    {
      var q :| q in s.globalQueue && UniqueID(q.event) == Some(u);
      assert q in s'.globalQueue;
    }
  }

  // Nothing in the heap is disturbed by additions, and the old elements stay ahead of the new.
  lemma {:induction false} EnqueueAllKeeps(s: Queue, adds: seq<Requeue>)
    ensures s.globalQueue <= EnqueueAll(s, adds).globalQueue
    ensures s.orderCounter <= EnqueueAll(s, adds).orderCounter
    ensures EnqueueAll(s, adds).requeues == s.requeues
    ensures forall p :: p in EnqueueAll(s, adds).globalQueue && p !in s.globalQueue ==>
      p.order > s.orderCounter && Requeue(p.event, p.priority) in adds
    decreases |adds|
  {
    if adds != [] {
      var s1 := Enqueue(s, adds[0].evt, adds[0].priority);
      EnqueueAllKeeps(s1, adds[1..]);
      assert adds == [adds[0]] + adds[1..];
    }
  }

  // e waits at this priority, added after the first orders.
  ghost predicate WaitsAfter(s: Queue, e: Event, priority: int, orders: nat) {
    exists p :: p in s.globalQueue && p.event == e && p.priority == priority && p.order > orders
  }

  // An event with the unique id of e waits.
  ghost predicate IdWaits(s: Queue, e: Event) {
    UniqueID(e).Some? && exists p :: p in s.globalQueue && UniqueID(p.event) == UniqueID(e)
  }

  // At most one element is added.
  lemma EnqueueAdds(s: Queue, e: Event, priority: int)
    ensures var s' := Enqueue(s, e, priority);
            && s'.requeues == s.requeues && s.orderCounter <= s'.orderCounter
            && (s'.globalQueue == s.globalQueue || s'.globalQueue == s.globalQueue + {PrioritizedEvent(e, priority, s.orderCounter + 1)})
  {
  }

  lemma EnqueueEnters(s: Queue, e: Event, priority: int)
    requires Valid(s)
    ensures var s' := Enqueue(s, e, priority);
            WaitsAfter(s', e, priority, s.orderCounter) || IdWaits(s', e)
  {
    var s' := Enqueue(s, e, priority);
    if UniqueID(e).Some? && UniqueID(e).value in s.uniqueMap {
      var p :| p in s.globalQueue && UniqueID(p.event) == UniqueID(e);
      assert p in s'.globalQueue;
    } else {
      assert PrioritizedEvent(e, priority, s.orderCounter + 1) in s'.globalQueue;
    }
  }

  // Every event added waits afterwards, unless one with its unique id does.
  lemma {:induction false} EnqueueAllEnters(s: Queue, adds: seq<Requeue>, i: nat)
    requires Valid(s) && i < |adds|
    ensures var s' := EnqueueAll(s, adds);
            WaitsAfter(s', adds[i].evt, adds[i].priority, s.orderCounter) || IdWaits(s', adds[i].evt)
    decreases |adds|
  {
    hide Valid, Enqueue;
    var s1 := Enqueue(s, adds[0].evt, adds[0].priority);
    EnqueueValid(s, adds[0].evt, adds[0].priority);
    EnqueueAdds(s, adds[0].evt, adds[0].priority);
    EnqueueAllKeeps(s1, adds[1..]);
    if i > 0 {
      EnqueueAllEnters(s1, adds[1..], i - 1);
    } else {
      EnqueueEnters(s, adds[0].evt, adds[0].priority);
    }
  }

  // An event put back waits again after the next merge, unless one with its unique id does.
  lemma PutBackReturns(s: Queue, i: nat)
    requires Valid(s) && i < |s.requeues|
    ensures Merged(s).requeues == []
    ensures var r := s.requeues[i];
            WaitsAfter(Merged(s), r.evt, r.priority, s.orderCounter) || IdWaits(Merged(s), r.evt)
  {
    EnqueueAllEnters(s, s.requeues, i);
  }

  // Two events added one before the other, neither of them unique, come out in that order.
  lemma {:induction false} EnqueueAllOrders(s: Queue, adds: seq<Requeue>, i: nat, j: nat) returns (p: PrioritizedEvent, q: PrioritizedEvent)
    requires i < j < |adds| && UniqueID(adds[i].evt).None? && UniqueID(adds[j].evt).None?
    ensures p in EnqueueAll(s, adds).globalQueue && q in EnqueueAll(s, adds).globalQueue
    ensures p.event == adds[i].evt && p.priority == adds[i].priority && q.event == adds[j].evt && q.priority == adds[j].priority
    ensures s.orderCounter < p.order < q.order
    decreases |adds|
  {
    var s1 := Enqueue(s, adds[0].evt, adds[0].priority);
    EnqueueAllKeeps(s1, adds[1..]);
    if i > 0 {
      p, q := EnqueueAllOrders(s1, adds[1..], i - 1, j - 1);
    } else {
      p := PrioritizedEvent(adds[0].evt, adds[0].priority, s.orderCounter + 1);
      q := EnqueueAllHas(s1, adds[1..], j - 1);
    }
  }

  lemma {:induction false} EnqueueAllHas(s: Queue, adds: seq<Requeue>, i: nat) returns (p: PrioritizedEvent)
    requires i < |adds| && UniqueID(adds[i].evt).None?
    ensures p in EnqueueAll(s, adds).globalQueue && p.event == adds[i].evt && p.priority == adds[i].priority && p.order > s.orderCounter
    decreases |adds|
  {
    var s1 := Enqueue(s, adds[0].evt, adds[0].priority);
    EnqueueAllKeeps(s1, adds[1..]);
    if i > 0 {
      p := EnqueueAllHas(s1, adds[1..], i - 1);
    } else {
      p := PrioritizedEvent(adds[0].evt, adds[0].priority, s.orderCounter + 1);
    }
  }

  // ---------- the heap ----------

  function Keys(items: seq<PrioritizedEvent>): (k: seq<HeapOrder.Key>)
    ensures |k| == |items|
  {
    seq(|items|, i requires 0 <= i < |items| => (items[i].priority, items[i].order))
  }

  ghost function Elements(items: seq<PrioritizedEvent>): set<PrioritizedEvent> {
    set p | p in items
  }

  lemma SwapKeeps(items: seq<PrioritizedEvent>, i: int, j: int)
    requires 0 <= i < |items| && 0 <= j < |items|
    ensures Elements(HeapOrder.Swapped(items, i, j)) == Elements(items)
    ensures NoDuplicates(items) ==> NoDuplicates(HeapOrder.Swapped(items, i, j))
    ensures Keys(HeapOrder.Swapped(items, i, j)) == HeapOrder.Swapped(Keys(items), i, j)
  {
    var after := HeapOrder.Swapped(items, i, j);
    forall p | p in items
      ensures p in after
    {
      var k :| 0 <= k < |items| && items[k] == p;
      assert after[if k == i then j else if k == j then i else k] == p;
    }
  }

  lemma AppendKeeps(items: seq<PrioritizedEvent>, pe: PrioritizedEvent)
    requires NoDuplicates(items) && pe !in items
    ensures Elements(items + [pe]) == Elements(items) + {pe} && NoDuplicates(items + [pe])
    ensures Keys(items + [pe]) == Keys(items) + [(pe.priority, pe.order)]
  {
  }

  lemma CutKeeps(items: seq<PrioritizedEvent>)
    requires NoDuplicates(items) && |items| > 0
    ensures var n := |items| - 1;
            Elements(items[..n]) == Elements(items) - {items[n]} && NoDuplicates(items[..n]) && Keys(items[..n]) == Keys(items)[..n]
  {
    var n := |items| - 1;
    NoDuplicatesLast(items);
    assert items == items[..n] + [items[n]];
  }

  // Two of the first n events are ordered as their keys are.
  lemma KeysOrder(s: seq<PrioritizedEvent>, n: int, i: int, j: int)
    requires 0 <= i < n <= |s| && 0 <= j < n
    ensures HeapOrder.Less(Keys(s)[..n][i], Keys(s)[..n][j]) <==> Less(s[i], s[j])
  {
  }

  // In heap order the first event is the least.
  lemma FirstIsLeast(items: seq<PrioritizedEvent>, s: Queue)
    requires HeapOrder.Heap(Keys(items)) && |items| > 0 && s.globalQueue == Elements(items) && Valid(s)
    ensures items[0] in s.globalQueue && items[0] == Least(s)
  {
    hide HeapOrder.Heap;
    forall p | p in s.globalQueue && p != items[0]
      ensures Less(items[0], p)
    {
      var i :| 0 <= i < |items| && items[i] == p;
      HeapOrder.RootIsLeast(Keys(items), i);
      assert items[0] in s.globalQueue && p.order != items[0].order;
    }
    assert IsLeast(s.globalQueue, items[0]);
    LeastIsUnique(s, items[0]);
  }

  class EventQueue {
    var globalQueue: seq<PrioritizedEvent>   // the slice kept in heap order
    var requeues: seq<Requeue>
    var orderCounter: nat
    var uniqueMap: set<string>

    ghost function View(): Queue
      reads this
    {
      Queue(Elements(globalQueue), requeues, orderCounter, uniqueMap)
    }

    ghost predicate Ready()
      reads this
    {
      HeapOrder.Heap(Keys(globalQueue)) && NoDuplicates(globalQueue) && Valid(View())
    }

    constructor ()
      ensures View() == Queue({}, [], 0, {}) && Ready()
    {
      globalQueue, requeues, orderCounter, uniqueMap := [], [], 0, {};
    }

    method Swap(i: int, j: int)
      requires 0 <= i < |globalQueue| && 0 <= j < |globalQueue| && NoDuplicates(globalQueue)
      modifies this`globalQueue
      ensures NoDuplicates(globalQueue) && Elements(globalQueue) == old(Elements(globalQueue))
      ensures globalQueue == HeapOrder.Swapped(old(globalQueue), i, j)
      ensures Keys(globalQueue) == HeapOrder.Swapped(Keys(old(globalQueue)), i, j)
    {
      SwapKeeps(globalQueue, i, j);
      globalQueue := globalQueue[i := globalQueue[j]][j := globalQueue[i]];
    }

    method Up(j0: int)
      requires 0 <= j0 < |globalQueue| && NoDuplicates(globalQueue)
      requires HeapOrder.HeapAround(Keys(globalQueue), j0) && HeapOrder.ChildrenInOrder(Keys(globalQueue), j0)
      modifies this`globalQueue
      ensures HeapOrder.Heap(Keys(globalQueue)) && NoDuplicates(globalQueue) && Elements(globalQueue) == old(Elements(globalQueue))
    {
      hide HeapOrder.HeapAround, HeapOrder.ChildrenInOrder, HeapOrder.Heap, HeapOrder.Swapped, NoDuplicates, Elements;
      var j := j0;
      while true
        invariant 0 <= j < |globalQueue| && NoDuplicates(globalQueue) && Elements(globalQueue) == old(Elements(globalQueue))
        invariant HeapOrder.HeapAround(Keys(globalQueue), j) && HeapOrder.ChildrenInOrder(Keys(globalQueue), j)
        decreases j
      {
        if j == 0 || !Less(globalQueue[j], globalQueue[HeapOrder.Parent(j)]) {
          HeapOrder.UpDone(Keys(globalQueue), j);
          break;
        }
        var i := HeapOrder.Parent(j);
        HeapOrder.UpStep(Keys(globalQueue), j);
        Swap(i, j);
        SwappedLength(Keys(globalQueue));
        j := i;
      }
    }

    lemma SwappedLength(k: seq<HeapOrder.Key>)
      requires k == Keys(globalQueue)
      ensures |k| == |globalQueue|
    {
    }

    // Sift the first event down within the first n.
    method Down(n: int)
      requires 0 < n <= |globalQueue| && NoDuplicates(globalQueue)
      requires HeapOrder.HeapAround(Keys(globalQueue)[..n], 0)
      modifies this`globalQueue
      ensures |globalQueue| == |old(globalQueue)| && globalQueue[n..] == old(globalQueue[n..])
      ensures HeapOrder.Heap(Keys(globalQueue)[..n]) && NoDuplicates(globalQueue) && Elements(globalQueue) == old(Elements(globalQueue))
    {
      hide HeapOrder.HeapAround, HeapOrder.ChildrenInOrder, HeapOrder.InOrderAt, HeapOrder.Heap, HeapOrder.Less, HeapOrder.Swapped,
           NoDuplicates, Elements;
      var i := 0;
      RootInOrder(Keys(globalQueue)[..n]);
      while true
        invariant NoDuplicates(globalQueue) && Elements(globalQueue) == old(Elements(globalQueue))
        invariant |globalQueue| == |old(globalQueue)| && globalQueue[n..] == old(globalQueue[n..]) && 0 <= i < n
        invariant HeapOrder.HeapAround(Keys(globalQueue)[..n], i) && HeapOrder.InOrderAt(Keys(globalQueue)[..n], i)
        decreases n - i
      {
        var j := 2 * i + 1;
        if j >= n {
          HeapOrder.NoChildren(Keys(globalQueue)[..n], i);
          break;
        }
        var j2 := j + 1;
        if j2 < n {
          KeysOrder(globalQueue, n, j2, j);
        }
        if j2 < n && Less(globalQueue[j2], globalQueue[j]) {
          j := j2;
        }
        HeapOrder.SmallerChild(Keys(globalQueue)[..n], i, j);
        KeysOrder(globalQueue, n, j, i);
        if !Less(globalQueue[j], globalQueue[i]) {
          HeapOrder.NoSmallerChild(Keys(globalQueue)[..n], i, j);
          break;
        }
        HeapOrder.DownStep(Keys(globalQueue)[..n], i, j);
        HeapOrder.SwappedPrefix(Keys(globalQueue), n, i, j);
        HeapOrder.SwappedPrefix(globalQueue, n, i, j);
        Swap(i, j);
        i := j;
      }
      HeapOrder.UpDone(Keys(globalQueue)[..n], i);
    }

    lemma RootInOrder(k: seq<HeapOrder.Key>)
      requires |k| > 0
      ensures HeapOrder.InOrderAt(k, 0)
    {
    }

    // heap.Push
    method Push(pe: PrioritizedEvent)
      requires HeapOrder.Heap(Keys(globalQueue)) && NoDuplicates(globalQueue) && pe !in globalQueue
      modifies this`globalQueue
      ensures HeapOrder.Heap(Keys(globalQueue)) && NoDuplicates(globalQueue) && Elements(globalQueue) == old(Elements(globalQueue)) + {pe}
    {
      hide HeapOrder.Heap, HeapOrder.HeapAround, HeapOrder.ChildrenInOrder, NoDuplicates;
      HeapOrder.PushReady(Keys(globalQueue), (pe.priority, pe.order));
      AppendKeeps(globalQueue, pe);
      globalQueue := globalQueue + [pe];
      Up(|globalQueue| - 1);
    }

    // heap.Pop: the first event changes places with the last, which is sifted down among the others.
    method PopFirst() returns (pe: PrioritizedEvent)
      requires HeapOrder.Heap(Keys(globalQueue)) && NoDuplicates(globalQueue) && |globalQueue| > 0
      modifies this`globalQueue
      ensures HeapOrder.Heap(Keys(globalQueue)) && NoDuplicates(globalQueue)
      ensures pe == old(globalQueue[0]) && Elements(globalQueue) == old(Elements(globalQueue)) - {pe}
    {
      hide HeapOrder.Heap, HeapOrder.HeapAround, NoDuplicates, Elements;
      pe := globalQueue[0];
      ghost var k := Keys(globalQueue);
      var last := |globalQueue| - 1;
      Swap(0, last);
      if last > 0 {
        HeapOrder.PopReady(k);
        Down(last);
      } else {
        NothingInOrder(Keys(globalQueue)[..last]);
      }
      CutKeeps(globalQueue);
      assert globalQueue[last..][0] == pe;
      globalQueue := globalQueue[..last];
    }

    lemma NothingInOrder(k: seq<HeapOrder.Key>)
      requires |k| == 0
      ensures HeapOrder.Heap(k)
    {
    }

    method AddToQueue(e: Event, priority: int)
      requires Ready()
      modifies this
      ensures View() == Enqueue(old(View()), e, priority) && Ready()
    {
      hide HeapOrder.Heap, NoDuplicates;
      ghost var s := View();
      EnqueueValid(s, e, priority);
      var uid := UniqueID(e);
      if uid.Some? {
        if uid.value in uniqueMap {
          return;
        }
        uniqueMap := uniqueMap + {uid.value};
      }
      orderCounter := orderCounter + 1;
      assert forall p :: p in globalQueue ==> p in s.globalQueue;
      Push(PrioritizedEvent(e, priority, orderCounter));
    }

    method AddToRequeue(e: Event, priority: int)
      requires Ready()
      modifies this`requeues
      ensures Ready() && View() == old(View()).(requeues := old(requeues) + [Requeue(e, priority)])
    {
      hide HeapOrder.Heap, NoDuplicates, Elements;
      requeues := requeues + [Requeue(e, priority)];
    }

    // The first loop of ProcessEvents.
    method MergeRequeues()
      requires Ready()
      modifies this
      ensures View() == Merged(old(View())) && Ready()
    {
      hide HeapOrder.Heap, NoDuplicates, Elements, Enqueue;
      ghost var s := View();
      var items := requeues;
      assert items[0..] == items;
      for i := 0 to |items|
        invariant Ready() && requeues == s.requeues
        invariant EnqueueAll(View(), items[i..]) == EnqueueAll(s, items)
      {
        assert items[i..][1..] == items[i + 1..];
        EnqueueAdds(View(), items[i].evt, items[i].priority);
        AddToQueue(items[i].evt, items[i].priority);
      }
      requeues := [];
    }

    // One heap.Pop of ProcessEvents, with the popped event's unique id released.
    method Pop() returns (pe: PrioritizedEvent)
      requires Ready() && |globalQueue| > 0
      modifies this
      ensures old(View()).globalQueue != {} && pe == old(Least(View()))
      ensures View() == Popped(old(View()), pe) && Ready()
    {
      hide HeapOrder.Heap, NoDuplicates, Valid, Least;
      assert globalQueue[0] in View().globalQueue;
      FirstIsLeast(globalQueue, View());
      PoppedValid(View(), globalQueue[0]);
      pe := PopFirst();
      if UniqueID(pe.event).Some? {
        uniqueMap := uniqueMap - {UniqueID(pe.event).value};
      }
    }
  }
}
