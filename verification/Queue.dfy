/** The thread-safe queue of common/network/NetTSQueue.h and the loop update that drains it, as written in
    NetServerInterface.h and NetClientInterface.h. */
module Queues {

  class TSQueue<T(0)> {
    var deque: seq<T>

    constructor ()
      ensures deque == []
    {
      deque := [];
    }

    method PushBack(item: T)
      modifies this
      ensures deque == old(deque) + [item]
    {
      deque := deque + [item];
    }

    method Empty() returns (empty: bool)
      ensures empty <==> deque == []
    {
      empty := deque == [];
    }

    /** Popping an empty deque is undefined, so the caller must have seen an element. */
    method PopFront() returns (item: T)
      requires deque != []
      modifies this
      ensures [item] + deque == old(deque)
    {
      item := deque[0];
      deque := deque[1..];
    }

    /** The loop of update without interference: at most limit messages, oldest first, each handed over once. */
    method Update(limit: nat) returns (handled: seq<T>)
      modifies this
      ensures handled + deque == old(deque)
      ensures |handled| == if limit <= |old(deque)| then limit else |old(deque)|
    {
      handled := [];
      var empty := Empty();
      while |handled| < limit && !empty
        invariant handled + deque == old(deque) && |handled| <= limit
        invariant empty <==> deque == []
        decreases |deque|
      {
        var message := PopFront();
        handled := handled + [message];
        empty := Empty();
      }
    }
  }

  // Many producers and the one consumer that calls update, interleaved. Each scope of the queue's mutex is one
  // atomic step; waiting on the condition variable gives the mutex up and may also end spuriously.

  datatype Consumer<T> =
    | Outside
    | Blocked(signalled: bool)
    | Testing
    | Popping
    | Handling(message: T)

  datatype System<T> = System(
    queue: seq<T>,
    consumer: Consumer<T>,
    limit: nat,                      // nMaxMessages of the current call
    count: nat,                      // nMessageCount
    // histories: everything pushed, everything handed to on_message, and the latter's length at the current call
    arrived: seq<T>,
    handled: seq<T>,
    start: nat)

  datatype Action<T> =
    | Push(item: T)
    | Call(limit: nat, wait: bool)
    | Wake
    | Test
    | Pop
    | Handle

  function Init<T>(): System<T> {
    System([], Outside, 0, 0, [], [], 0)
  }

  predicate Enabled<T>(s: System<T>, a: Action<T>) {
    match a
    case Push(_) => true
    case Call(_, _) => s.consumer.Outside?
    case Wake => s.consumer.Blocked?
    case Test => s.consumer.Testing?
    case Pop => s.consumer.Popping?
    case Handle => s.consumer.Handling?
  }

  /** push_back notifies one waiter, if there is one. */
  function Notified<T>(c: Consumer<T>): Consumer<T> {
    if c.Blocked? then Blocked(true) else c
  }

  /** The test at the head of wait's loop, with the mutex held. */
  function WaitTest<T>(s: System<T>): System<T> {
    s.(consumer := if s.queue == [] then Blocked(false) else Testing)
  }

  function Next<T>(s: System<T>, a: Action<T>): System<T>
    requires Enabled(s, a) && (a.Pop? ==> s.queue != [])
  {
    match a
    case Push(item) => s.(queue := s.queue + [item], arrived := s.arrived + [item], consumer := Notified(s.consumer))
    case Call(limit, wait) =>
      var called := s.(limit := limit, count := 0, start := |s.handled|, consumer := Testing);
      if wait then WaitTest(called) else called
    case Wake => WaitTest(s)
    case Test => s.(consumer := if s.count < s.limit && s.queue != [] then Popping else Outside)
    case Pop => s.(consumer := Handling(s.queue[0]), queue := s.queue[1..])
    case Handle => s.(consumer := Testing, handled := s.handled + [s.consumer.message], count := s.count + 1)
  }

  function InHand<T>(s: System<T>): seq<T> {
    if s.consumer.Handling? then [s.consumer.message] else []
  }

  /** What every step keeps. */
  ghost predicate Inv<T>(s: System<T>) {
    // every message is waiting, in hand or handled, in arrival order
    && s.arrived == s.handled + InHand(s) + s.queue
    // a consumer blocked without a wake-up has nothing to do
    && (s.consumer == Blocked(false) ==> s.queue == [])
    // pop_front is only called on a non-empty queue
    && (s.consumer.Popping? ==> s.queue != [])
    // a call hands over at most its limit
    && |s.handled| == s.start + s.count
    && s.count + |InHand(s)| <= s.limit
    && (s.consumer.Popping? ==> s.count < s.limit)
  }

  lemma StepKeepsInv<T>(s: System<T>, a: Action<T>)
    requires Inv(s) && Enabled(s, a)
    ensures a.Pop? ==> s.queue != []
    ensures Inv(Next(s, a))
  {
    if a.Push? {
      assert s.handled + InHand(s) + s.queue + [a.item] == s.handled + InHand(s) + (s.queue + [a.item]);
    }
    if a.Pop? {
      assert s.queue == [s.queue[0]] + s.queue[1..];
    }
  }

  predicate Run<T>(s: System<T>, acts: seq<Action<T>>)
    decreases |acts|
  {
    acts == [] || (Enabled(s, acts[0]) && (acts[0].Pop? ==> s.queue != []) && Run(Next(s, acts[0]), acts[1..]))
  }

  function After<T>(s: System<T>, acts: seq<Action<T>>): System<T>
    requires Run(s, acts)
    decreases |acts|
  {
    if acts == [] then s else After(Next(s, acts[0]), acts[1..])
  }

  lemma {:induction false} RunKeepsInv<T>(s: System<T>, acts: seq<Action<T>>)
    requires Inv(s) && Run(s, acts)
    ensures Inv(After(s, acts))
    decreases |acts|
  {
    if acts != [] {
      StepKeepsInv(s, acts[0]);
      RunKeepsInv(Next(s, acts[0]), acts[1..]);
    }
  }

  lemma InitInv<T>()
    ensures Inv(Init<T>())
  {
  }

  lemma InvMeans<T>(s: System<T>)
    requires Inv(s)
    ensures s.arrived == s.handled + InHand(s) + s.queue
    ensures s.start <= |s.handled| <= s.start + s.limit
    ensures s.consumer.Blocked? ==> s.queue == [] || s.consumer.signalled
    ensures s.consumer.Popping? ==> s.queue != []
  {
  }

  /** The hand-off over all runs: what on_message has seen is a prefix of what was pushed, nothing is lost between,
      no call hands over more than its limit, a blocked consumer has an empty queue or a wake-up on its way, and a
      pop is never attempted on an empty queue. */
  lemma HandOff<T>(acts: seq<Action<T>>)
    requires Run(Init<T>(), acts)
    ensures var s := After(Init<T>(), acts);
            && s.arrived == s.handled + InHand(s) + s.queue
            && s.start <= |s.handled| <= s.start + s.limit
            && (s.consumer.Blocked? ==> s.queue == [] || s.consumer.signalled)
            && (s.consumer.Popping? ==> s.queue != [])
  {
    hide Inv, InHand, Next, Enabled, Run, After;
    InitInv<T>();
    RunKeepsInv(Init<T>(), acts);
    InvMeans(After(Init<T>(), acts));
  }

  /** The consumer's own steps in a run; all others are pushes. */
  function ConsumerSteps<T>(acts: seq<Action<T>>): nat {
    if acts == [] then 0 else (if acts[0].Push? then 0 else 1) + ConsumerSteps(acts[1..])
  }

  /** How many steps the consumer of a non-empty queue is away from having handled its first message. */
  function StepsToGo<T>(c: Consumer<T>): nat {
    match c
    case Outside => 0
    case Blocked(_) => 4
    case Testing => 3
    case Popping => 2
    case Handling(_) => 1
  }

  /** The consumer is on its way to handle m. */
  ghost predicate Due<T>(s: System<T>, m: T) {
    && s.count < s.limit
    && !s.consumer.Outside?
    && (if s.consumer.Handling? then s.consumer.message == m else s.queue != [] && s.queue[0] == m)
  }

  lemma DueStep<T>(s: System<T>, a: Action<T>, m: T)
    requires Due(s, m) && Enabled(s, a)
    ensures a.Pop? ==> s.queue != []
    ensures var t := Next(s, a);
            if a.Push? then Due(t, m) && StepsToGo(t.consumer) == StepsToGo(s.consumer) && t.handled == s.handled
            else if s.consumer.Handling? then t.handled == s.handled + [m]
            else Due(t, m) && StepsToGo(t.consumer) == StepsToGo(s.consumer) - 1 && t.handled == s.handled
  {
  }

  lemma {:induction false} HandledGrows<T>(s: System<T>, acts: seq<Action<T>>)
    requires Run(s, acts)
    ensures s.handled <= After(s, acts).handled
    decreases |acts|
  {
    if acts != [] {
      HandledGrows(Next(s, acts[0]), acts[1..]);
    }
  }

  lemma {:induction false} DueIsHandled<T>(s: System<T>, acts: seq<Action<T>>, m: T)
    requires Due(s, m) && Run(s, acts) && ConsumerSteps(acts) >= StepsToGo(s.consumer)
    ensures s.handled + [m] <= After(s, acts).handled
    decreases |acts|
  {
    hide Next, Enabled, Due;
    assert StepsToGo(s.consumer) > 0 by { DueAway(s, m); }
    DueStep(s, acts[0], m);
    var next := Next(s, acts[0]);
    if acts[0].Push? || !s.consumer.Handling? {
      DueIsHandled(next, acts[1..], m);
    } else {
      HandledGrows(next, acts[1..]);
    }
  }

  lemma DueAway<T>(s: System<T>, m: T)
    requires Due(s, m)
    ensures StepsToGo(s.consumer) > 0
  {
  }

  /** A consumer waiting while a message is queued has been signalled; and in every run, whatever is pushed meanwhile
      and in between, that message is the next one it handles, four of its own steps later at the latest. */
  lemma WokenHandles<T>(s: System<T>, acts: seq<Action<T>>)
    requires Inv(s) && s.consumer.Blocked? && s.queue != [] && s.count < s.limit
    requires Run(s, acts) && ConsumerSteps(acts) >= 4
    ensures s.consumer.signalled && s.handled + [s.queue[0]] <= After(s, acts).handled
  {
    DueIsHandled(s, acts, s.queue[0]);
  }

  // One call of update, from beginning to end.

  predicate NoCall<T>(acts: seq<Action<T>>) {
    forall k :: 0 <= k < |acts| ==> !acts[k].Call?
  }

  /** Where a call with this limit stands that found so many messages handled. */
  ghost predicate InCall<T>(s: System<T>, before: nat, limit: nat, wait: bool) {
    && s.limit == limit && s.start == before && |s.handled| == before + s.count
    && (s.consumer.Blocked? ==> wait && s.count == 0)
    && (wait && limit > 0 && s.count == 0 ==> !s.consumer.Outside? && (s.consumer.Testing? ==> s.queue != []))
  }

  lemma CallStep<T>(s: System<T>, a: Action<T>, before: nat, limit: nat, wait: bool)
    requires Inv(s) && InCall(s, before, limit, wait) && Enabled(s, a) && !a.Call?
    ensures a.Pop? ==> s.queue != []
    ensures InCall(Next(s, a), before, limit, wait)
  {
  }

  lemma {:induction false} CallRun<T>(s: System<T>, acts: seq<Action<T>>, before: nat, limit: nat, wait: bool)
    requires Inv(s) && InCall(s, before, limit, wait) && Run(s, acts) && NoCall(acts)
    ensures InCall(After(s, acts), before, limit, wait) && Inv(After(s, acts))
    decreases |acts|
  {
    hide Inv, InCall, Next, Enabled;
    if acts != [] {
      CallStep(s, acts[0], before, limit, wait);
      StepKeepsInv(s, acts[0]);
      assert forall k :: 0 <= k < |acts[1..]| ==> acts[1..][k] == acts[k + 1];
      CallRun(Next(s, acts[0]), acts[1..], before, limit, wait);
    }
  }

  /** A call of update over every run, whatever is pushed meanwhile: it blocks only if told to wait, and then before it
      has handled anything; it hands over at most its limit; told to wait it does not return before it has handed over a
      message; and it returns at the first test that finds its limit reached or the queue empty. */
  lemma UpdateCall<T>(s: System<T>, limit: nat, wait: bool, rest: seq<Action<T>>)
    requires Inv(s) && s.consumer.Outside? && NoCall(rest)
    requires Run(Next(s, Call(limit, wait)), rest)
    ensures var t := After(Next(s, Call(limit, wait)), rest);
            && s.handled <= t.handled && |t.handled| <= |s.handled| + limit
            && (t.consumer.Blocked? ==> wait && t.handled == s.handled)
            && (t.consumer.Outside? && wait && limit > 0 ==> |t.handled| > |s.handled|)
            && (t.consumer.Testing? ==>
                  (Next(t, Test).consumer.Outside? <==> |t.handled| == |s.handled| + limit || t.queue == []))
  {
    var called := Next(s, Call(limit, wait));
    StepKeepsInv(s, Call(limit, wait));
    assert InCall(called, |s.handled|, limit, wait);
    assert called.handled == s.handled;
    hide Next, Enabled, Inv;
    CallRun(called, rest, |s.handled|, limit, wait);
    HandledGrows(called, rest);
    var t := After(called, rest);
    InvMeans(t);
    if t.consumer.Testing? {
      TestReturns(t);
    }
  }

  lemma TestReturns<T>(s: System<T>)
    requires s.consumer.Testing?
    ensures Next(s, Test).consumer.Outside? <==> s.count >= s.limit || s.queue == []
  {
  }
}
