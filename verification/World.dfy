/**
 The input events of world.go: HandleInputEvents decides for each input whether it runs now or is put
 back, and EventLoop processes one pass of events and then forgets who acted.
 Handlers may add any events, and events may be added between any two steps.
 */
module World {
  import opened Events

  datatype Trackers = Trackers(mobInput: set<int>, userInput: set<int>, ignoreInput: map<int, nat>)

  datatype Outcome = Outcome(trackers: Trackers, result: ListenerReturn, ran: bool)

  function Unblocked(t: Trackers, userId: int, unBlock: bool): Trackers {
    if unBlock then t.(ignoreInput := t.ignoreInput - {userId}) else t
  }

  function HandleInput(t: Trackers, e: Event, turnCt: nat): Outcome
    requires !e.Other?
  {
    match e
    case MobInput(_, mob, readyTurn) =>
      if mob in t.mobInput then Outcome(t, CancelAndRequeue, false)
      else if readyTurn == 0 then Outcome(t, Continue, true)
      else
        var t' := t.(mobInput := t.mobInput + {mob});
        if readyTurn > turnCt then Outcome(t', CancelAndRequeue, false) else Outcome(t', Continue, true)
    case UserInput(_, user, readyTurn, block, unBlock) =>
      if readyTurn == 0 then Outcome(Unblocked(t, user, unBlock), Continue, true)
      else if user in t.userInput then Outcome(t, CancelAndRequeue, false)
      else if readyTurn > turnCt then
        var t' := if block && user !in t.ignoreInput then t.(ignoreInput := t.ignoreInput[user := turnCt]) else t;
        Outcome(t', CancelAndRequeue, false)
      else
        var t' := Unblocked(t, user, unBlock);
        Outcome(t'.(userInput := t'.userInput + {user}), Continue, true)
  }

  // ---------- the system and its steps ----------

  // ran lists the inputs executed in the current pass, history all inputs executed so far;
  // dispatched lists the events handed to listeners in the current pass; used holds every id issued.
  datatype System = System(queue: Queue, trackers: Trackers, inPass: bool,
                           ran: seq<Event>, history: seq<Event>, dispatched: seq<nat>, used: set<nat>)

  datatype Action =
    | Add(e: Event, priority: int)
    | Begin
    | Dispatch(turnCt: nat, adds: seq<Requeue>, other: ListenerReturn)
    | End

  // The ids of adds are new and distinct.
  predicate FreshIds(used: set<nat>, adds: seq<Requeue>)
    decreases |adds|
  {
    adds == [] || (adds[0].evt.id !in used && FreshIds(used + {adds[0].evt.id}, adds[1..]))
  }

  function Ids(adds: seq<Requeue>): set<nat> {
    set i | 0 <= i < |adds| :: adds[i].evt.id
  }

  // What the listeners answer: HandleInputEvents for inputs, anything for other events.
  function Answer(t: Trackers, e: Event, turnCt: nat, other: ListenerReturn): Outcome {
    if e.Other? then Outcome(t, other, false) else HandleInput(t, e, turnCt)
  }

  function Dispatched(s: System, pe: PrioritizedEvent, turnCt: nat, adds: seq<Requeue>, other: ListenerReturn): System {
    var o := Answer(s.trackers, pe.event, turnCt, other);
    var q := EnqueueAll(Popped(s.queue, pe), adds);
    s.(queue := if o.result == CancelAndRequeue then q.(requeues := q.requeues + [Requeue(pe.event, pe.priority)]) else q,
       trackers := o.trackers,
       ran := if o.ran then s.ran + [pe.event] else s.ran,
       history := if o.ran then s.history + [pe.event] else s.history,
       dispatched := s.dispatched + [pe.event.id],
       used := s.used + Ids(adds))
  }

  ghost predicate Next(s: System, a: Action, s': System)
    requires Valid(s.queue)
  {
    match a
    case Add(e, p) => e.id !in s.used && s' == s.(queue := Enqueue(s.queue, e, p), used := s.used + {e.id})
    case Begin => !s.inPass && s' == s.(queue := Merged(s.queue), inPass := true, ran := [], dispatched := [])
    case Dispatch(turnCt, adds, other) =>
      && s.inPass && s.queue.globalQueue != {} && FreshIds(s.used, adds)
      && s' == Dispatched(s, Least(s.queue), turnCt, adds, other)
    case End =>
      && s.inPass && s.queue.globalQueue == {}
      && s' == s.(inPass := false, trackers := s.trackers.(mobInput := {}, userInput := {}))
  }

  // No id waits twice, and ids waiting in the heap have not been dispatched in this pass.
  ghost predicate Sound(s: System) {
    && Valid(s.queue)
    && (forall p :: p in s.queue.globalQueue ==> p.event.id in s.used)
    && (forall i :: 0 <= i < |s.queue.requeues| ==> s.queue.requeues[i].evt.id in s.used)
    && (forall i :: 0 <= i < |s.dispatched| ==> s.dispatched[i] in s.used)
    && (forall p, q :: p in s.queue.globalQueue && q in s.queue.globalQueue && p.event.id == q.event.id ==> p == q)
    && (forall p, i :: p in s.queue.globalQueue && 0 <= i < |s.queue.requeues| ==> p.event.id != s.queue.requeues[i].evt.id)
    && (forall i, j :: 0 <= i < j < |s.queue.requeues| ==> s.queue.requeues[i].evt.id != s.queue.requeues[j].evt.id)
  }

  // In the current pass each event was dispatched at most once, and each actor's delayed inputs ran
  // at most once.
  ghost predicate OncePerPass(s: System) {
    && (s.inPass ==> DispatchedOnce(s.dispatched, s.queue.globalQueue))
    && (s.inPass ==> RanTracked(s.ran, s.trackers))
    && RanOnce(s.ran)
  }

  ghost predicate DispatchedOnce(dispatched: seq<nat>, heap: set<PrioritizedEvent>) {
    && (forall i, j :: 0 <= i < j < |dispatched| ==> dispatched[i] != dispatched[j])
    && (forall p, i :: p in heap && 0 <= i < |dispatched| ==> dispatched[i] != p.event.id)
  }

  ghost predicate RanTracked(ran: seq<Event>, t: Trackers) {
    forall i :: 0 <= i < |ran| && Delayed(ran[i]) ==> Tracked(t, ran[i])
  }

  ghost predicate RanOnce(ran: seq<Event>) {
    forall i, j :: 0 <= i < j < |ran| && Delayed(ran[i]) && Delayed(ran[j]) ==> !SameActor(ran[i], ran[j])
  }

  predicate Delayed(e: Event) {
    !e.Other? && e.readyTurn > 0
  }

  predicate SameActor(a: Event, b: Event) {
    (a.MobInput? && b.MobInput? && a.mobInstanceId == b.mobInstanceId) ||
    (a.UserInput? && b.UserInput? && a.userId == b.userId)
  }

  predicate Tracked(t: Trackers, e: Event) {
    (e.MobInput? && e.mobInstanceId in t.mobInput) || (e.UserInput? && e.userId in t.userInput)
  }

  // ---------- ids stay distinct ----------

  ghost predicate DistinctHeap(heap: set<PrioritizedEvent>) {
    forall p, q :: p in heap && q in heap && p.event.id == q.event.id ==> p == q
  }

  ghost predicate DistinctAdds(adds: seq<Requeue>) {
    forall i, j :: 0 <= i < j < |adds| ==> adds[i].evt.id != adds[j].evt.id
  }

  ghost predicate Apart(heap: set<PrioritizedEvent>, adds: seq<Requeue>) {
    forall p, i :: p in heap && 0 <= i < |adds| ==> p.event.id != adds[i].evt.id
  }

  lemma {:induction false} EnqueueAllDistinct(q: Queue, adds: seq<Requeue>)
    requires Valid(q) && DistinctHeap(q.globalQueue) && DistinctAdds(adds) && Apart(q.globalQueue, adds)
    ensures DistinctHeap(EnqueueAll(q, adds).globalQueue)
    ensures forall p :: p in EnqueueAll(q, adds).globalQueue ==> p in q.globalQueue || p.event.id in Ids(adds)
    decreases |adds|
  {
    hide Valid, Enqueue;
    if adds != [] {
      var q1 := Enqueue(q, adds[0].evt, adds[0].priority);
      EnqueueValid(q, adds[0].evt, adds[0].priority);
      EnqueueAdds(q, adds[0].evt, adds[0].priority);
      assert forall i :: 0 <= i < |adds| - 1 ==> adds[1..][i] == adds[i + 1];
      EnqueueAllDistinct(q1, adds[1..]);
      forall p | p in EnqueueAll(q1, adds[1..]).globalQueue
        ensures p in q.globalQueue || p.event.id in Ids(adds)
      {
        if p !in q.globalQueue && p.event.id in Ids(adds[1..]) {
          var i :| 0 <= i < |adds[1..]| && adds[1..][i].evt.id == p.event.id;
          assert adds[i + 1].evt.id == p.event.id;
        }
      }
    }
  }

  lemma {:induction false} FreshIdsDistinct(used: set<nat>, adds: seq<Requeue>)
    requires FreshIds(used, adds)
    ensures DistinctAdds(adds) && Ids(adds) !! used
    decreases |adds|
  {
    if adds != [] {
      FreshIdsDistinct(used + {adds[0].evt.id}, adds[1..]);
      assert forall i :: 0 < i < |adds| ==> adds[i] == adds[1..][i - 1] && adds[i].evt.id in Ids(adds[1..]);
    }
  }

  lemma StepAdd(s: System, a: Action, s': System)
    requires Sound(s) && OncePerPass(s) && a.Add? && Next(s, a, s')
    ensures Sound(s') && OncePerPass(s')
  {
    hide Valid, Enqueue;
    EnqueueValid(s.queue, a.e, a.priority);
    EnqueueAdds(s.queue, a.e, a.priority);
  }

  lemma StepBegin(s: System, a: Action, s': System)
    requires Sound(s) && OncePerPass(s) && a.Begin? && Next(s, a, s')
    ensures Sound(s') && OncePerPass(s')
  {
    EnqueueAllValid(s.queue, s.queue.requeues);
    EnqueueAllKeeps(s.queue, s.queue.requeues);
    EnqueueAllDistinct(s.queue, s.queue.requeues);
  }

  // A delayed input runs only for an actor not tracked yet, who is tracked from then on.
  lemma AnswerTracks(t: Trackers, e: Event, turnCt: nat, other: ListenerReturn)
    ensures var o := Answer(t, e, turnCt, other);
            && (forall x :: Tracked(t, x) ==> Tracked(o.trackers, x))
            && (o.ran && Delayed(e) ==> !Tracked(t, e) && Tracked(o.trackers, e))
  {
  }

  lemma StepRan(s: System, turnCt: nat, adds: seq<Requeue>, other: ListenerReturn, pe: PrioritizedEvent)
    requires RanTracked(s.ran, s.trackers) && RanOnce(s.ran)
    ensures var s' := Dispatched(s, pe, turnCt, adds, other); RanTracked(s'.ran, s'.trackers) && RanOnce(s'.ran)
  {
    hide Answer;
    AnswerTracks(s.trackers, pe.event, turnCt, other);
    var s' := Dispatched(s, pe, turnCt, adds, other);
    assert forall i :: 0 <= i < |s.ran| ==> s'.ran[i] == s.ran[i];
  }

  // The heap after a dispatch, before the answer puts the event back.
  lemma AfterPop(s: System, adds: seq<Requeue>, pe: PrioritizedEvent)
    requires Sound(s) && FreshIds(s.used, adds) && pe in s.queue.globalQueue
    ensures var q := EnqueueAll(Popped(s.queue, pe), adds);
            && Valid(q) && DistinctHeap(q.globalQueue) && q.requeues == s.queue.requeues
            && s.queue.globalQueue - {pe} <= q.globalQueue && pe !in q.globalQueue
            && (forall p :: p in q.globalQueue ==> (p in s.queue.globalQueue && p != pe) || (p.event.id in Ids(adds) && p.event.id !in s.used))
  {
    hide EnqueueAll, Valid;
    var q1 := Popped(s.queue, pe);
    PoppedValid(s.queue, pe);
    FreshIdsDistinct(s.used, adds);
    EnqueueAllValid(q1, adds);
    EnqueueAllKeeps(q1, adds);
    assert forall i :: 0 <= i < |adds| ==> adds[i].evt.id in Ids(adds);
    EnqueueAllDistinct(q1, adds);
  }

  lemma StepDispatch(s: System, a: Action, s': System)
    requires Sound(s) && OncePerPass(s) && a.Dispatch? && Next(s, a, s')
    ensures Sound(s') && OncePerPass(s')
  {
    hide EnqueueAll, Popped, Answer, RanTracked, RanOnce, Least, FreshIds, Ids, Merged, Enqueue, Valid, IsLeast;
    LeastInHeap(s.queue);
    var pe := Least(s.queue);
    AfterPop(s, a.adds, pe);
    StepRan(s, a.turnCt, a.adds, a.other, pe);
    ValidRequeues(EnqueueAll(Popped(s.queue, pe), a.adds), s'.queue.requeues);
  }

  lemma LeastInHeap(q: Queue)
    requires Valid(q) && q.globalQueue != {}
    ensures Least(q) in q.globalQueue
  {
  }

  // The list of events put back is no part of the heap's consistency.
  lemma ValidRequeues(q: Queue, r: seq<Requeue>)
    requires Valid(q)
    ensures Valid(q.(requeues := r))
  {
  }

  // What every step keeps.
  lemma StepSound(s: System, a: Action, s': System)
    requires Sound(s) && OncePerPass(s) && Next(s, a, s')
    ensures Sound(s') && OncePerPass(s')
  {
    match a
    case Add(_, _) => StepAdd(s, a, s');
    case Begin => StepBegin(s, a, s');
    case Dispatch(_, _, _) => StepDispatch(s, a, s');
    case End =>
  }

  // ---------- one mob's inputs keep their order ----------

  // b does not occur before a.
  ghost predicate NeverBefore(history: seq<Event>, a: Event, b: Event) {
    forall j :: 0 <= j < |history| && history[j] == b ==> a in history[..j]
  }

  ghost predicate Waits(heap: set<PrioritizedEvent>, e: Event, priority: int) {
    exists p :: p in heap && p.event == e && p.priority == priority
  }

  ghost predicate BothWait(heap: set<PrioritizedEvent>, a: Event, b: Event, priority: int) {
    exists p, q :: p in heap && q in heap && p.event == a && q.event == b &&
                   p.priority == priority && q.priority == priority && p.order < q.order
  }

  ghost predicate BothPutBack(requeues: seq<Requeue>, a: Event, b: Event, priority: int) {
    exists i, j :: 0 <= i < j < |requeues| && requeues[i] == Requeue(a, priority) && requeues[j] == Requeue(b, priority)
  }

  // a waits ahead of b: both in the heap, or a put back in this pass and blocking b, or both put back.
  ghost predicate Ahead(s: System, a: Event, b: Event, priority: int) {
    || BothWait(s.queue.globalQueue, a, b, priority)
    || (s.inPass && Tracked(s.trackers, a) && Requeue(a, priority) in s.queue.requeues && Waits(s.queue.globalQueue, b, priority))
    || BothPutBack(s.queue.requeues, a, b, priority)
  }

  // Once a is ahead of b, a stays ahead until it has run.
  ghost predicate InOrder(s: System, a: Event, b: Event, priority: int) {
    && NeverBefore(s.history, a, b)
    && (a in s.history || (b !in s.history && Ahead(s, a, b, priority)))
  }

  predicate OneMob(a: Event, b: Event) {
    a.MobInput? && b.MobInput? && a.mobInstanceId == b.mobInstanceId && a.id != b.id
  }

  lemma OrderAdd(s: System, x: Action, s': System, a: Event, b: Event, priority: int)
    requires Sound(s) && x.Add? && Next(s, x, s') && OneMob(a, b) && InOrder(s, a, b, priority)
    ensures InOrder(s', a, b, priority)
  {
    assert s.queue.globalQueue <= s'.queue.globalQueue && s'.queue.requeues == s.queue.requeues;
  }

  lemma OrderBegin(s: System, x: Action, s': System, a: Event, b: Event, priority: int)
    requires Sound(s) && x.Begin? && Next(s, x, s') && OneMob(a, b) && InOrder(s, a, b, priority)
    ensures InOrder(s', a, b, priority)
  {
    var rs := s.queue.requeues;
    EnqueueAllKeeps(s.queue, rs);
    if a !in s.history && BothPutBack(rs, a, b, priority) {
      var i, j :| 0 <= i < j < |rs| && rs[i] == Requeue(a, priority) && rs[j] == Requeue(b, priority);
      var p, q := EnqueueAllOrders(s.queue, rs, i, j);
      assert p in s'.queue.globalQueue && q in s'.queue.globalQueue;
    }
  }

  lemma OrderEnd(s: System, x: Action, s': System, a: Event, b: Event, priority: int)
    requires Sound(s) && x.End? && Next(s, x, s') && OneMob(a, b) && InOrder(s, a, b, priority)
    ensures InOrder(s', a, b, priority)
  {
  }

  // A mob's input either runs or is put back; put back, its mob is tracked; tracked, it is put back.
  lemma MobAnswer(t: Trackers, e: Event, turnCt: nat, other: ListenerReturn)
    requires e.MobInput?
    ensures var o := Answer(t, e, turnCt, other);
            && (o.ran <==> o.result != CancelAndRequeue)
            && (!o.ran ==> Tracked(o.trackers, e))
            && (Tracked(t, e) ==> !o.ran)
  {
  }

  lemma NeverBeforeAppend(history: seq<Event>, a: Event, b: Event, e: Event)
    requires NeverBefore(history, a, b) && (e == b ==> a in history)
    ensures NeverBefore(history + [e], a, b)
  {
    var h := history + [e];
    forall j | 0 <= j < |h| && h[j] == b
      ensures a in h[..j]
    {
      assert h[..j] == history[..j];
      if j == |history| {
        assert history[..j] == history;
      }
    }
  }

  lemma PutBackAppend(requeues: seq<Requeue>, a: Event, b: Event, priority: int, r: Requeue)
    ensures BothPutBack(requeues, a, b, priority) ==> BothPutBack(requeues + [r], a, b, priority)
    ensures Requeue(a, priority) in requeues && r == Requeue(b, priority) ==> BothPutBack(requeues + [r], a, b, priority)
  {
    var rs := requeues + [r];
    if BothPutBack(requeues, a, b, priority) {
      var i, j :| 0 <= i < j < |requeues| && requeues[i] == Requeue(a, priority) && requeues[j] == Requeue(b, priority);
      assert rs[i] == Requeue(a, priority) && rs[j] == Requeue(b, priority);
    } else if Requeue(a, priority) in requeues && r == Requeue(b, priority) {
      var i :| 0 <= i < |requeues| && requeues[i] == Requeue(a, priority);
      assert rs[i] == Requeue(a, priority) && rs[|requeues|] == Requeue(b, priority);
    }
  }

  // The least element of the heap is dispatched while a, still waiting, is ahead of b.
  lemma AheadDispatch(s: System, turnCt: nat, adds: seq<Requeue>, other: ListenerReturn, a: Event, b: Event, priority: int)
    requires Sound(s) && s.inPass && s.queue.globalQueue != {} && FreshIds(s.used, adds)
    requires OneMob(a, b) && Ahead(s, a, b, priority)
    ensures var pe := Least(s.queue); var s' := Dispatched(s, pe, turnCt, adds, other);
            var o := Answer(s.trackers, pe.event, turnCt, other);
            (pe.event == a && o.ran) || (!(o.ran && (pe.event == a || pe.event == b)) && Ahead(s', a, b, priority))
  {
    hide EnqueueAll, Popped, Answer, Least, FreshIds, Ids, Valid;
    var pe := Least(s.queue);
    var s' := Dispatched(s, pe, turnCt, adds, other);
    LeastInHeap(s.queue);
    AfterPop(s, adds, pe);
    AnswerTracks(s.trackers, pe.event, turnCt, other);
    if pe.event.MobInput? {
      MobAnswer(s.trackers, pe.event, turnCt, other);
    }
    PutBackAppend(s.queue.requeues, a, b, priority, Requeue(pe.event, pe.priority));
    if BothWait(s.queue.globalQueue, a, b, priority) {
      var p, q :| p in s.queue.globalQueue && q in s.queue.globalQueue && p.event == a && q.event == b &&
                  p.priority == priority && q.priority == priority && p.order < q.order;
      assert IsLeast(s.queue.globalQueue, pe);
      assert pe != q;
      assert q in s'.queue.globalQueue;
      if pe == p {
        assert Waits(s'.queue.globalQueue, b, priority);
      } else {
        assert p in s'.queue.globalQueue;
        assert BothWait(s'.queue.globalQueue, a, b, priority);
      }
    } else if BothPutBack(s.queue.requeues, a, b, priority) {
      assert pe.event != a && pe.event != b;
    } else {
      var q :| q in s.queue.globalQueue && q.event == b && q.priority == priority;
      assert pe.event != a;
      if pe != q {
        assert q in s'.queue.globalQueue;
        assert pe.event != b;
      }
    }
  }

  lemma OrderDispatch(s: System, x: Action, s': System, a: Event, b: Event, priority: int)
    requires Sound(s) && x.Dispatch? && Next(s, x, s') && OneMob(a, b) && InOrder(s, a, b, priority)
    ensures InOrder(s', a, b, priority)
  {
    hide EnqueueAll, Popped, Answer, FreshIds, Ids, Ahead;
    var e := Least(s.queue).event;
    if a in s.history {
      NeverBeforeAppend(s.history, a, b, e);
    } else {
      AheadDispatch(s, x.turnCt, x.adds, x.other, a, b, priority);
      if e != b {
        NeverBeforeAppend(s.history, a, b, e);
      }
    }
  }

  lemma StepOrder(s: System, x: Action, s': System, a: Event, b: Event, priority: int)
    requires Sound(s) && Next(s, x, s') && OneMob(a, b) && InOrder(s, a, b, priority)
    ensures InOrder(s', a, b, priority)
  {
    match x
    case Add(_, _) => OrderAdd(s, x, s', a, b, priority);
    case Begin => OrderBegin(s, x, s', a, b, priority);
    case Dispatch(_, _, _) => OrderDispatch(s, x, s', a, b, priority);
    case End => OrderEnd(s, x, s', a, b, priority);
  }

  // ---------- runs ----------

  ghost predicate Run(ss: seq<System>, xs: seq<Action>) {
    && |ss| == |xs| + 1
    && (forall i :: 0 <= i < |ss| ==> Valid(ss[i].queue))
    && (forall i :: 0 <= i < |xs| ==> Next(ss[i], xs[i], ss[i + 1]))
  }

  // Where a server starts
  lemma NothingYet()
    ensures var s := System(Queue({}, [], 0, {}), Trackers({}, {}, map[]), false, [], [], [], {});
            Sound(s) && OncePerPass(s)
  {
  }

  // In every state of every run, each actor has run at most one delayed input in the current pass
  // and no event has been dispatched twice in it.
  lemma {:induction false} OnceInEveryRun(ss: seq<System>, xs: seq<Action>, n: nat)
    requires Run(ss, xs) && Sound(ss[0]) && OncePerPass(ss[0]) && n < |ss|
    ensures Sound(ss[n]) && OncePerPass(ss[n])
    decreases n
  {
    hide Sound, OncePerPass, Next, Valid;
    if n > 0 {
      OnceInEveryRun(ss, xs, n - 1);
      StepSound(ss[n - 1], xs[n - 1], ss[n]);
    }
  }

  lemma {:induction false} InOrderInEveryRun(ss: seq<System>, xs: seq<Action>, a: Event, b: Event, priority: int, n: nat)
    requires Run(ss, xs) && Sound(ss[0]) && OncePerPass(ss[0]) && n < |ss|
    requires OneMob(a, b) && InOrder(ss[0], a, b, priority)
    ensures InOrder(ss[n], a, b, priority)
    decreases n
  {
    hide Sound, OncePerPass, Next, Valid, InOrder, OneMob;
    if n > 0 {
      InOrderInEveryRun(ss, xs, a, b, priority, n - 1);
      OnceInEveryRun(ss, xs, n - 1);
      StepOrder(ss[n - 1], xs[n - 1], ss[n], a, b, priority);
    }
  }

  // From a state where two inputs of one mob wait in the heap at one priority, a ahead of b, no run
  // executes b without having executed a first, however often both are put back.
  lemma MobInputsKeepOrder(ss: seq<System>, xs: seq<Action>, a: Event, b: Event, priority: int, n: nat)
    requires Run(ss, xs) && Sound(ss[0]) && OncePerPass(ss[0]) && n < |ss|
    requires OneMob(a, b) && a !in ss[0].history && b !in ss[0].history
    requires BothWait(ss[0].queue.globalQueue, a, b, priority)
    ensures NeverBefore(ss[n].history, a, b)
  {
    hide Run, Sound, OncePerPass;
    InOrderInEveryRun(ss, xs, a, b, priority, n);
  }

  // ---------- which inputs run, and when ----------

  // An input may run: a mob's when it is due and the mob has no input behind it in this pass, a user's at
  // once without a delay, and else when it is due and no delayed input of the user has run in this pass.
  ghost predicate MayRun(t: Trackers, e: Event, turnCt: nat) {
    || (e.MobInput? && e.mobInstanceId !in t.mobInput && e.readyTurn <= turnCt)
    || (e.UserInput? && (e.readyTurn == 0 || (e.userId !in t.userInput && e.readyTurn <= turnCt)))
  }

  // The event dispatched runs exactly if it may; an input that may not is put back, at its priority.
  lemma DispatchRuns(s: System, turnCt: nat, adds: seq<Requeue>, other: ListenerReturn, pe: PrioritizedEvent)
    ensures var e, s' := pe.event, Dispatched(s, pe, turnCt, adds, other);
            && s'.history == s.history + (if MayRun(s.trackers, e, turnCt) then [e] else [])
            && s'.ran == s.ran + (if MayRun(s.trackers, e, turnCt) then [e] else [])
            && s'.queue.requeues == EnqueueAll(Popped(s.queue, pe), adds).requeues +
                                    (if (if e.Other? then other != CancelAndRequeue else MayRun(s.trackers, e, turnCt)) then [] else [Requeue(e, pe.priority)])
  {
    hide EnqueueAll, Popped, Ids;
  }

  // A mob is tracked once one of its delayed inputs was dispatched, a user once one has run.
  lemma DispatchTracks(s: System, turnCt: nat, adds: seq<Requeue>, other: ListenerReturn, pe: PrioritizedEvent)
    ensures var e, t, t' := pe.event, s.trackers, Dispatched(s, pe, turnCt, adds, other).trackers;
            && t'.mobInput == t.mobInput + (if e.MobInput? && e.readyTurn > 0 then {e.mobInstanceId} else {})
            && t'.userInput == t.userInput + (if e.UserInput? && e.readyTurn > 0 && MayRun(t, e, turnCt) then {e.userId} else {})
  {
    hide EnqueueAll, Popped, Ids;
  }

  // The event makes the user's further input be ignored: a blocking input that has to wait.
  ghost predicate Blocks(t: Trackers, e: Event, turnCt: nat, user: int) {
    e.UserInput? && e.userId == user && e.blockInput && e.readyTurn > turnCt && user !in t.userInput
  }

  // The event ends that: an unblocking input that runs.
  ghost predicate Unblocks(t: Trackers, e: Event, turnCt: nat, user: int) {
    e.UserInput? && e.userId == user && e.unBlockInput && MayRun(t, e, turnCt)
  }

  // Ignored from then on, since the turn of the first such input.
  lemma DispatchBlocks(s: System, turnCt: nat, adds: seq<Requeue>, other: ListenerReturn, pe: PrioritizedEvent, user: int)
    ensures var e, t, t' := pe.event, s.trackers, Dispatched(s, pe, turnCt, adds, other).trackers;
            && (user in t'.ignoreInput <==> (user in t.ignoreInput && !Unblocks(t, e, turnCt, user)) || Blocks(t, e, turnCt, user))
            && (user in t'.ignoreInput ==> t'.ignoreInput[user] == if user in t.ignoreInput then t.ignoreInput[user] else turnCt)
  {
    hide EnqueueAll, Popped, Ids;
  }

  // The event a step of a run dispatches
  ghost function EventAt(ss: seq<System>, xs: seq<Action>, i: nat): Event
    requires Run(ss, xs) && i < |xs| && xs[i].Dispatch?
  {
    assert Next(ss[i], xs[i], ss[i + 1]);
    Least(ss[i].queue).event
  }

  // In every run, an input runs only when dispatched, and exactly then if it may: never before the turn it
  // is ready for. No other event waits at a lower priority number, or at the same one for longer.
  lemma StepsOfRun(ss: seq<System>, xs: seq<Action>, i: nat)
    requires Run(ss, xs) && i < |xs|
    ensures !xs[i].Dispatch? ==> ss[i + 1].history == ss[i].history
    ensures xs[i].Dispatch? ==>
      var e := EventAt(ss, xs, i);
      && ss[i + 1].history == ss[i].history + (if MayRun(ss[i].trackers, e, xs[i].turnCt) then [e] else [])
      && (ss[i + 1].history != ss[i].history ==> !e.Other? && e.readyTurn <= xs[i].turnCt)
      && exists pe :: pe in ss[i].queue.globalQueue && pe.event == e &&
           forall p :: p in ss[i].queue.globalQueue && p != pe ==>
             pe.priority < p.priority || (pe.priority == p.priority && pe.order < p.order)
  {
    hide EnqueueAll, Popped, Ids, Merged, Enqueue, Valid, Answer, FreshIds, Dispatched;
    assert Next(ss[i], xs[i], ss[i + 1]);
    if xs[i].Dispatch? {
      var pe := Least(ss[i].queue);
      DispatchRuns(ss[i], xs[i].turnCt, xs[i].adds, xs[i].other, pe);
      LeastIsFirst(ss[i].queue);
    }
  }

  lemma LeastIsFirst(q: Queue)
    requires Valid(q) && q.globalQueue != {}
    ensures Least(q) in q.globalQueue
    ensures forall p :: p in q.globalQueue && p != Least(q) ==>
      Least(q).priority < p.priority || (Least(q).priority == p.priority && Least(q).order < p.order)
  {
    hide Valid;
    assert IsLeast(q.globalQueue, Least(q));
  }

  // Step i of a run makes the user's input be ignored, or ends it.
  ghost predicate BlocksAt(ss: seq<System>, xs: seq<Action>, i: int, user: int)
    requires Run(ss, xs)
  {
    0 <= i < |xs| && xs[i].Dispatch? && Blocks(ss[i].trackers, EventAt(ss, xs, i), xs[i].turnCt, user)
  }

  ghost predicate UnblocksAt(ss: seq<System>, xs: seq<Action>, i: int, user: int)
    requires Run(ss, xs)
  {
    0 <= i < |xs| && xs[i].Dispatch? && Unblocks(ss[i].trackers, EventAt(ss, xs, i), xs[i].turnCt, user)
  }

  ghost predicate BlockedSince(ss: seq<System>, xs: seq<Action>, k: int, n: nat, user: int)
    requires Run(ss, xs)
  {
    k < n && BlocksAt(ss, xs, k, user) && forall i :: k < i < n ==> !UnblocksAt(ss, xs, i, user)
  }

  // In every state of every run that starts with nobody ignored, a user is ignored if and only if a blocking
  // input of his has had to wait and no unblocking input of his has run since.
  lemma {:induction false} IgnoredInEveryRun(ss: seq<System>, xs: seq<Action>, n: nat, user: int)
    requires Run(ss, xs) && n < |ss| && user !in ss[0].trackers.ignoreInput
    ensures user in ss[n].trackers.ignoreInput <==> exists k :: BlockedSince(ss, xs, k, n, user)
    ensures user in ss[n].trackers.ignoreInput ==>
      exists k :: BlockedSince(ss, xs, k, n, user) && xs[k].turnCt == ss[n].trackers.ignoreInput[user]
    decreases n
  {
    hide Next, Valid, Blocks, Unblocks;
    if n > 0 {
      var m := n - 1;
      IgnoredInEveryRun(ss, xs, m, user);
      IgnoredStep(ss, xs, m, user);
      if k :| BlockedSince(ss, xs, k, m, user) && (user in ss[m].trackers.ignoreInput ==> xs[k].turnCt == ss[m].trackers.ignoreInput[user]) {
        assert !UnblocksAt(ss, xs, m, user) ==> BlockedSince(ss, xs, k, n, user);
      }
      if BlocksAt(ss, xs, m, user) {
        assert BlockedSince(ss, xs, m, n, user);
      }
      if k :| BlockedSince(ss, xs, k, n, user) {
        assert k < m ==> BlockedSince(ss, xs, k, m, user);
      }
    }
  }

  lemma IgnoredStep(ss: seq<System>, xs: seq<Action>, i: nat, user: int)
    requires Run(ss, xs) && i < |xs|
    ensures |ss| == |xs| + 1
    ensures var t, t' := ss[i].trackers.ignoreInput, ss[i + 1].trackers.ignoreInput;
            && (user in t' <==> (user in t && !UnblocksAt(ss, xs, i, user)) || BlocksAt(ss, xs, i, user))
            && (user in t' ==> t'[user] == if user in t then t[user] else if xs[i].Dispatch? then xs[i].turnCt else 0)
    ensures !(UnblocksAt(ss, xs, i, user) && BlocksAt(ss, xs, i, user))
  {
    hide EnqueueAll, Popped, Ids, Merged, Enqueue, Valid, Answer, FreshIds, Dispatched, Least;
    assert Next(ss[i], xs[i], ss[i + 1]);
    if xs[i].Dispatch? {
      DispatchBlocks(ss[i], xs[i].turnCt, xs[i].adds, xs[i].other, Least(ss[i].queue), user);
    }
  }

  // Step k dispatches a delayed input of e's mob, or runs one of e's user.
  ghost predicate TracksAt(ss: seq<System>, xs: seq<Action>, k: int, e: Event)
    requires Run(ss, xs)
  {
    && 0 <= k < |xs| && xs[k].Dispatch? && !EventAt(ss, xs, k).Other? && EventAt(ss, xs, k).readyTurn > 0
    && ((e.MobInput? && EventAt(ss, xs, k).MobInput? && EventAt(ss, xs, k).mobInstanceId == e.mobInstanceId) ||
        (e.UserInput? && EventAt(ss, xs, k).UserInput? && EventAt(ss, xs, k).userId == e.userId && ss[k + 1].history != ss[k].history))
  }

  ghost predicate TrackedSince(ss: seq<System>, xs: seq<Action>, k: int, n: nat, e: Event)
    requires Run(ss, xs) && n < |ss|
  {
    0 <= k < n && TracksAt(ss, xs, k, e) && forall i :: k < i < n ==> !xs[i].End?
  }

  // In every state of every run that starts with nobody tracked, a mob is tracked if and only if a delayed
  // input of its was dispatched in the current pass, a user if and only if a delayed input of his ran in it.
  lemma {:induction false} TrackedInEveryRun(ss: seq<System>, xs: seq<Action>, n: nat, e: Event)
    requires Run(ss, xs) && n < |ss| && ss[0].trackers.mobInput == {} == ss[0].trackers.userInput
    ensures e.MobInput? ==> (e.mobInstanceId in ss[n].trackers.mobInput <==> exists k :: TrackedSince(ss, xs, k, n, e))
    ensures e.UserInput? ==> (e.userId in ss[n].trackers.userInput <==> exists k :: TrackedSince(ss, xs, k, n, e))
    decreases n
  {
    hide Next, Valid, TracksAt;
    if n > 0 {
      var m := n - 1;
      TrackedInEveryRun(ss, xs, m, e);
      TracksStep(ss, xs, m, e);
      if k :| TrackedSince(ss, xs, k, m, e) {
        assert !xs[m].End? ==> TrackedSince(ss, xs, k, n, e);
      }
      if TracksAt(ss, xs, m, e) {
        assert TrackedSince(ss, xs, m, n, e);
      }
      if k :| TrackedSince(ss, xs, k, n, e) {
        assert k < m ==> TrackedSince(ss, xs, k, m, e);
      }
    }
  }

  lemma TracksStep(ss: seq<System>, xs: seq<Action>, i: nat, e: Event)
    requires Run(ss, xs) && i < |xs|
    ensures |ss| == |xs| + 1
    ensures Tracked(ss[i + 1].trackers, e) <==> (Tracked(ss[i].trackers, e) && !xs[i].End?) || TracksAt(ss, xs, i, e)
    ensures TracksAt(ss, xs, i, e) ==> !xs[i].End?
  {
    hide EnqueueAll, Popped, Ids, Merged, Enqueue, Valid, Answer, FreshIds, Dispatched, Least;
    assert Next(ss[i], xs[i], ss[i + 1]);
    if xs[i].Dispatch? {
      DispatchTracks(ss[i], xs[i].turnCt, xs[i].adds, xs[i].other, Least(ss[i].queue));
      DispatchRuns(ss[i], xs[i].turnCt, xs[i].adds, xs[i].other, Least(ss[i].queue));
    }
  }

  // In no state of a run do two events with the same unique id wait.
  lemma OneWaitsPerId(ss: seq<System>, xs: seq<Action>, n: nat, p: PrioritizedEvent, q: PrioritizedEvent)
    requires Run(ss, xs) && n < |ss| && p in ss[n].queue.globalQueue && q in ss[n].queue.globalQueue
    requires p.event.Other? && q.event.Other? && p.event.unique.Some? && p.event.unique == q.event.unique
    ensures p == q
  {
    hide Next;
    assert Valid(ss[n].queue);
  }

  // ---------- the code ----------

  // What the outside world does during one dispatch: the turn, the events the handlers add, and the
  // answer to events other than inputs.
  datatype Reply = Reply(turnCt: nat, adds: seq<Requeue>, other: ListenerReturn)

  predicate FreshScript(used: set<nat>, script: seq<Reply>)
    decreases |script|
  {
    script == [] || (FreshIds(used, script[0].adds) && FreshScript(used + Ids(script[0].adds), script[1..]))
  }

  class World {
    var mobInputEventTracker: set<int>
    var userInputEventTracker: set<int>
    var ignoreInput: map<int, nat>

    constructor ()
      ensures View() == Trackers({}, {}, map[])
    {
      mobInputEventTracker, userInputEventTracker, ignoreInput := {}, {}, map[];
    }

    function View(): Trackers
      reads this
    {
      Trackers(mobInputEventTracker, userInputEventTracker, ignoreInput)
    }

    method HandleInputEvents(e: Event, turnCt: nat) returns (result: ListenerReturn, ran: bool)
      requires !e.Other?
      modifies this
      ensures Outcome(View(), result, ran) == HandleInput(old(View()), e, turnCt)
      ensures e.MobInput? ==> (ran <==> e.mobInstanceId !in old(mobInputEventTracker) && e.readyTurn <= turnCt)
      ensures e.UserInput? ==> (ran <==> e.readyTurn == 0 || (e.userId !in old(userInputEventTracker) && e.readyTurn <= turnCt))
      ensures result == if ran then Continue else CancelAndRequeue
    {
      ran := false;
      match e {
        case MobInput(_, mob, readyTurn) =>
          if mob in mobInputEventTracker {
            return CancelAndRequeue, false;
          }
          if readyTurn <= 0 {
            return Continue, true;
          }
          mobInputEventTracker := mobInputEventTracker + {mob};
          if readyTurn > turnCt {
            return CancelAndRequeue, false;
          }
          return Continue, true;
        case UserInput(_, user, readyTurn, block, unBlock) =>
          if readyTurn <= 0 {
            if unBlock {
              ignoreInput := ignoreInput - {user};
            }
            return Continue, true;
          }
          if user in userInputEventTracker {
            return CancelAndRequeue, false;
          }
          if readyTurn > turnCt {
            if block {
              if user !in ignoreInput {
                ignoreInput := ignoreInput[user := turnCt];
              }
            }
            return CancelAndRequeue, false;
          }
          if unBlock {
            ignoreInput := ignoreInput - {user};
          }
          userInputEventTracker := userInputEventTracker + {user};
          return Continue, true;
      }
    }

    method AddAll(q: EventQueue, adds: seq<Requeue>)
      requires q.Ready()
      modifies q
      ensures q.Ready() && q.View() == EnqueueAll(old(q.View()), adds)
    {
      hide EventQueue.Ready, EventQueue.View, Enqueue;
      assert adds[0..] == adds;
      for i := 0 to |adds|
        invariant q.Ready() && EnqueueAll(q.View(), adds[i..]) == EnqueueAll(old(q.View()), adds)
      {
        assert adds[i..][1..] == adds[i + 1..];
        q.AddToQueue(adds[i].evt, adds[i].priority);
      }
    }

    // One turn of the loop of ProcessEvents.
    method DispatchNext(q: EventQueue, r: Reply, ghost s: System) returns (ghost s': System)
      requires q.Ready() && |q.globalQueue| > 0 && s.queue == q.View() && s.trackers == View()
      modifies this, q
      ensures Valid(s.queue) && s.queue.globalQueue != {} && s' == Dispatched(s, Least(s.queue), r.turnCt, r.adds, r.other)
      ensures q.Ready() && s'.queue == q.View() && s'.trackers == View()
    {
      hide EventQueue.Ready, EventQueue.View, Valid, Enqueue, EnqueueAll, Popped, Least;
      ReadyIsValid(q);
      var pe := q.Pop();
      s' := Dispatched(s, pe, r.turnCt, r.adds, r.other);
      var result, ran := r.other, false;
      if !pe.event.Other? {
        result, ran := HandleInputEvents(pe.event, r.turnCt);
      }
      AddAll(q, r.adds);
      if result == CancelAndRequeue {
        RequeuesOf(q);
        q.AddToRequeue(pe.event, pe.priority);
      }
    }

    lemma ReadyIsValid(q: EventQueue)
      requires q.Ready()
      ensures Valid(q.View()) && (|q.globalQueue| > 0 <==> q.View().globalQueue != {})
    {
      if |q.globalQueue| > 0 {
        assert q.globalQueue[0] in q.View().globalQueue;
      }
    }

    lemma RequeuesOf(q: EventQueue)
      ensures q.View().requeues == q.requeues
    {
    }

    // One pass. The script answers for the outside world; a pass that outlives it is cut off there.
    // Whatever happens, the pass is a run of the system.
    method EventLoop(q: EventQueue, script: seq<Reply>, ghost s: System)
      returns (finished: bool, ghost ss: seq<System>, ghost xs: seq<Action>)
      requires q.Ready() && s.queue == q.View() && s.trackers == View()
      requires !s.inPass && FreshScript(s.used, script)
      modifies this, q
      ensures q.Ready() && Run(ss, xs) && ss[0] == s
      ensures ss[|ss| - 1].queue == q.View() && ss[|ss| - 1].trackers == View()
      ensures ss[|ss| - 1].inPass <==> !finished
      ensures finished ==> q.globalQueue == [] && mobInputEventTracker == {} && userInputEventTracker == {}
    {
      hide EventQueue.Ready, EventQueue.View, Valid, Merged, Least, FreshIds, Ids, Run;
      ReadyIsValid(q);
      q.MergeRequeues();
      ReadyIsValid(q);
      ghost var cur := s.(queue := q.View(), inPass := true, ran := [], dispatched := []);
      ss, xs := [s, cur], [Begin];
      OneStep(s, Begin, cur);
      var i := 0;
      assert script[0..] == script;
      while |q.globalQueue| > 0 && i < |script|
        invariant 0 <= i <= |script| && q.Ready() && FreshScript(cur.used, script[i..])
        invariant cur.inPass && cur.queue == q.View() && cur.trackers == View()
        invariant Run(ss, xs) && |ss| > 0 && ss[0] == s && ss[|ss| - 1] == cur
        decreases |script| - i
      {
        assert script[i..][1..] == script[i + 1..];
        ghost var next := DispatchNext(q, script[i], cur);
        ReadyIsValid(q);
        MoreSteps(ss, xs, Dispatch(script[i].turnCt, script[i].adds, script[i].other), next);
        xs, ss := xs + [Dispatch(script[i].turnCt, script[i].adds, script[i].other)], ss + [next];
        cur := next;
        i := i + 1;
      }
      finished := |q.globalQueue| == 0;
      if finished {
        ReadyIsValid(q);
        userInputEventTracker := {};
        mobInputEventTracker := {};
        ghost var last := cur.(inPass := false, trackers := View());
        MoreSteps(ss, xs, End, last);
        xs, ss := xs + [End], ss + [last];
      }
    }
  }

  lemma OneStep(s: System, x: Action, s': System)
    requires Valid(s.queue) && Valid(s'.queue) && Next(s, x, s')
    ensures Run([s, s'], [x])
  {
    hide Valid, Next;
  }

  lemma MoreSteps(ss: seq<System>, xs: seq<Action>, x: Action, s': System)
    requires Run(ss, xs) && |ss| > 0 && Valid(ss[|ss| - 1].queue) && Next(ss[|ss| - 1], x, s') && Valid(s'.queue)
    ensures Run(ss + [s'], xs + [x])
  {
    hide Valid, Next;
    var ss', xs' := ss + [s'], xs + [x];
    forall i | 0 <= i < |xs'|
      ensures Next(ss'[i], xs'[i], ss'[i + 1])
    {
      assert ss'[i] == ss[i];
      if i < |xs| {
        assert ss'[i + 1] == ss[i + 1] && xs'[i] == xs[i];
      }
    }
  }
}
