/** Admission of clients and the choice of their maps over whole runs of the server, server/src/Server.cpp. */
module Admission {
  import opened Options
  import opened Messages
  import opened ServerInterfaces

  /** One entry of the deque: how many were accepted before it, its uid, and the map it was given when validated. */
  datatype Member = Member(order: nat, uid: uint32, given: Option<nat>)

  datatype State = State(maps: nat, members: seq<Member>, accepted: nat, counter: uint32)

  datatype Event =
    | Arrive
    | Validate(k: nat)
    | Broadcast(connected: seq<bool>)

  function Init(maps: nat): State {
    State(maps, [], 0, 10000)
  }

  predicate Possible(s: State, e: Event) {
    match e
    case Arrive => true
    case Validate(k) => k < |s.members| && s.members[k].given == None
    case Broadcast(connected) => |connected| == |s.members|
  }

  /** Arrive is the accept handler, Validate is on_client_validated, which takes map get_connections() - 1 as of
      that moment, and Broadcast drops the clients that are no longer connected. */
  function Next(s: State, e: Event): State
    requires Possible(s, e)
  {
    match e
    case Arrive =>
      if |s.members| < s.maps then
        s.(members := s.members + [Member(s.accepted, s.counter, None)], accepted := s.accepted + 1,
           counter := NextId(s.counter))
      else s
    case Validate(k) => s.(members := s.members[k := s.members[k].(given := Some(|s.members| - 1))])
    case Broadcast(connected) => s.(members := Keep(s.members, connected))
  }

  predicate Run(s: State, events: seq<Event>)
    decreases |events|
  {
    events == [] || (Possible(s, events[0]) && Run(Next(s, events[0]), events[1..]))
  }

  function After(s: State, events: seq<Event>): State
    requires Run(s, events)
    decreases |events|
  {
    if events == [] then s else After(Next(s, events[0]), events[1..])
  }

  /** The uid of the client accepted after n others. */
  function Uid(n: nat): uint32 {
    (10000 + n) % 0x1_0000_0000
  }

  predicate InOrder(members: seq<Member>, accepted: nat) {
    && (forall i, j :: 0 <= i < j < |members| ==> members[i].order < members[j].order)
    && (forall i :: 0 <= i < |members| ==> members[i].order < accepted && members[i].uid == Uid(members[i].order))
  }

  /** What every event keeps. */
  predicate Inv(s: State) {
    && |s.members| <= s.maps
    && s.counter == Uid(s.accepted)
    && InOrder(s.members, s.accepted)
    && forall i :: 0 <= i < |s.members| && s.members[i].given.Some? ==> s.members[i].given.value < s.maps
  }

  lemma {:induction false} KeepInOrder(members: seq<Member>, connected: seq<bool>, accepted: nat)
    requires |connected| == |members| && InOrder(members, accepted)
    ensures InOrder(Keep(members, connected), accepted)
    ensures |Keep(members, connected)| <= |members|
    ensures forall m :: m in Keep(members, connected) ==> m in members
  {
    if members != [] {
      var n := |members| - 1;
      KeepInOrder(members[..n], connected[..n], accepted);
      var kept := Keep(members[..n], connected[..n]);
      assert forall i :: 0 <= i < |kept| ==> kept[i] in kept && kept[i] in members[..n];
    }
  }

  lemma NextUid(n: nat)
    ensures NextId(Uid(n)) == Uid(n + 1)
  {
  }

  lemma StepKeepsInv(s: State, e: Event)
    requires Inv(s) && Possible(s, e)
    ensures Inv(Next(s, e))
  {
    hide Uid, NextId;
    NextUid(s.accepted);
    match e
    case Arrive =>
    case Validate(k) =>
    case Broadcast(connected) =>
      KeepInOrder(s.members, connected, s.accepted);
      var kept := Keep(s.members, connected);
      assert forall i :: 0 <= i < |kept| ==> kept[i] in kept;
  }

  lemma {:induction false} RunKeepsInv(s: State, events: seq<Event>)
    requires Inv(s) && Run(s, events)
    ensures Inv(After(s, events)) && After(s, events).maps == s.maps
    decreases |events|
  {
    hide Inv;
    if events != [] {
      StepKeepsInv(s, events[0]);
      RunKeepsInv(Next(s, events[0]), events[1..]);
    }
  }

  predicate UidsIncrease(members: seq<Member>) {
    forall i, j :: 0 <= i < j < |members| ==> members[i].uid < members[j].uid
  }

  /** Over all runs: never more connections than maps, every map index given exists, and the uids in the deque
      increase as long as the 32-bit counter has not wrapped. */
  lemma AdmissionSafe(maps: nat, events: seq<Event>)
    requires Run(Init(maps), events)
    ensures var s := After(Init(maps), events);
            && |s.members| <= maps
            && (forall i :: 0 <= i < |s.members| && s.members[i].given.Some? ==> s.members[i].given.value < maps)
            && (s.accepted <= 0x1_0000_0000 - 10000 ==> UidsIncrease(s.members))
  {
    hide Run, After, Next;
    RunKeepsInv(Init(maps), events);
    var s := After(Init(maps), events);
    if s.accepted <= 0x1_0000_0000 - 10000 {
      SmallUids(s.members, s.accepted);
    }
  }

  lemma SmallUids(members: seq<Member>, accepted: nat)
    requires InOrder(members, accepted) && accepted <= 0x1_0000_0000 - 10000
    ensures UidsIncrease(members)
  {
    forall i | 0 <= i < |members| ensures members[i].uid == 10000 + members[i].order {
      assert members[i].order < accepted;
    }
  }

  // Which client gets which map, while nobody is dropped.

  predicate NoBroadcast(events: seq<Event>) {
    forall k :: 0 <= k < |events| ==> !events[k].Broadcast?
  }

  /** Nobody was dropped, so the k-th member is the k-th accepted, and its map was chosen after its arrival. */
  predicate Undropped(s: State) {
    && s.accepted == |s.members|
    && forall k :: 0 <= k < |s.members| ==>
         s.members[k].order == k && (s.members[k].given.Some? ==> k <= s.members[k].given.value < |s.members|)
  }

  lemma {:induction false} RunKeepsUndropped(s: State, events: seq<Event>)
    requires Undropped(s) && Run(s, events) && NoBroadcast(events)
    ensures Undropped(After(s, events))
    decreases |events|
  {
    if events != [] {
      assert forall k :: 0 <= k < |events[1..]| ==> events[1..][k] == events[k + 1];
      RunKeepsUndropped(Next(s, events[0]), events[1..]);
    }
  }

  predicate AllValidated(s: State) {
    forall k :: 0 <= k < |s.members| ==> s.members[k].given.Some?
  }

  predicate MapsDistinct(s: State) {
    forall i, j :: 0 <= i < j < |s.members| ==> s.members[i].given != s.members[j].given
  }

  /** Every client is validated while it is the last one accepted. */
  predicate PromptRun(s: State, events: seq<Event>)
    requires Run(s, events)
    decreases |events|
  {
    events != [] ==>
      && (events[0].Validate? ==> |s.members| == events[0].k + 1)
      && PromptRun(Next(s, events[0]), events[1..])
  }

  /** Every validated client holds the map of its own rank. */
  predicate OwnMaps(s: State) {
    forall k :: 0 <= k < |s.members| && s.members[k].given.Some? ==> s.members[k].given.value == k
  }

  /** Without drops all clients get the map of their own rank exactly when each is validated before the next one is
      accepted. */
  lemma {:induction false} PromptIff(s: State, events: seq<Event>)
    requires Undropped(s) && Run(s, events) && NoBroadcast(events)
    ensures OwnMaps(After(s, events)) <==> OwnMaps(s) && PromptRun(s, events)
    decreases |events|
  {
    if events != [] {
      var next := Next(s, events[0]);
      assert forall k :: 0 <= k < |events[1..]| ==> events[1..][k] == events[k + 1];
      PromptIff(next, events[1..]);
      PromptStep(s, events[0]);
    }
  }

  lemma PromptStep(s: State, e: Event)
    requires Possible(s, e) && !e.Broadcast?
    ensures OwnMaps(Next(s, e)) <==> OwnMaps(s) && (e.Validate? ==> |s.members| == e.k + 1)
  {
    var t := Next(s, e);
    match e
    case Validate(k) =>
      assert t.members[k].given == Some(|s.members| - 1);
      assert forall j :: 0 <= j < |s.members| && j != k ==> t.members[j] == s.members[j];
    case Arrive =>
      assert forall j :: 0 <= j < |s.members| ==> t.members[j] == s.members[j];
  }

  /** Without drops and with all clients validated, no two share a map exactly when each was validated before the next
      one was accepted. */
  lemma DistinctMapsIff(maps: nat, events: seq<Event>)
    requires Run(Init(maps), events) && NoBroadcast(events)
    requires AllValidated(After(Init(maps), events))
    ensures MapsDistinct(After(Init(maps), events)) <==> PromptRun(Init(maps), events)
  {
    hide Run, After, Next, PromptRun;
    RunKeepsUndropped(Init(maps), events);
    PromptIff(Init(maps), events);
    var s := After(Init(maps), events);
    if MapsDistinct(s) {
      OwnRank(s, 0);
    }
  }

  /** Distinct maps fill the ranks from the last client down. */
  lemma {:induction false} OwnRank(s: State, k: nat)
    requires Undropped(s) && AllValidated(s) && MapsDistinct(s) && k <= |s.members|
    ensures forall j :: k <= j < |s.members| ==> s.members[j].given == Some(j)
    decreases |s.members| - k
  {
    if k < |s.members| {
      OwnRank(s, k + 1);
    }
  }

  // Any run, drops included: which clients share a map in the end.

  /** No two of these clients, told apart by how many were accepted before them, have been given the same map. */
  predicate DistinctAmong(s: State, kept: set<nat>) {
    forall i, j :: 0 <= i < j < |s.members| && s.members[i].order in kept && s.members[j].order in kept
                   && s.members[i].given.Some? && s.members[j].given.Some? ==>
      s.members[i].given != s.members[j].given
  }

  /** No two connected clients share a map. */
  predicate Apart(s: State) {
    forall i, j :: 0 <= i < j < |s.members| && s.members[i].given.Some? && s.members[j].given.Some? ==>
      s.members[i].given != s.members[j].given
  }

  predicate AlwaysApart(s: State, events: seq<Event>)
    requires Run(s, events)
    decreases |events|
  {
    Apart(s) && (events != [] ==> AlwaysApart(Next(s, events[0]), events[1..]))
  }

  /** Some connected client holds the map that a client validated now is given. */
  predicate LastMapHeld(s: State) {
    exists j :: 0 <= j < |s.members| && s.members[j].given == Some(|s.members| - 1)
  }

  /** Whenever a client is validated, no connected client holds the last map. */
  predicate LastMapFree(s: State, events: seq<Event>)
    requires Run(s, events)
    decreases |events|
  {
    events != [] ==> (events[0].Validate? ==> !LastMapHeld(s)) && LastMapFree(Next(s, events[0]), events[1..])
  }

  lemma ApartStep(s: State, e: Event)
    requires Inv(s) && Possible(s, e) && Apart(s)
    ensures Apart(Next(s, e)) <==> (e.Validate? ==> !LastMapHeld(s))
  {
    match e
    case Arrive =>
      assert forall j :: 0 <= j < |s.members| ==> Next(s, e).members[j] == s.members[j];
    case Validate(k) => ValidateApart(s, k);
    case Broadcast(connected) => BroadcastApart(s, connected);
  }

  lemma ValidateApart(s: State, k: nat)
    requires Possible(s, Validate(k)) && Apart(s)
    ensures Apart(Next(s, Validate(k))) <==> !LastMapHeld(s)
  {
    var t := Next(s, Validate(k));
    assert t.members[k].given == Some(|s.members| - 1);
    assert forall j :: 0 <= j < |s.members| && j != k ==> t.members[j] == s.members[j];
    if j :| 0 <= j < |s.members| && s.members[j].given == Some(|s.members| - 1) {
      assert j != k && t.members[j].given == t.members[k].given;
    }
  }

  lemma BroadcastApart(s: State, connected: seq<bool>)
    requires Inv(s) && Possible(s, Broadcast(connected)) && Apart(s)
    ensures Apart(Next(s, Broadcast(connected)))
  {
    var t, all := Next(s, Broadcast(connected)), Orders(s);
    KeepInOrder(s.members, connected, s.accepted);
    forall i | 0 <= i < |s.members| ensures s.members[i].order in all {
      OrderOf(s, i);
    }
    assert DistinctAmong(s, all);
    ByOrders(s, all);
    ByOrders(t, all);
    forall i | 0 <= i < |t.members| ensures t.members[i].order in all {
      assert t.members[i] in s.members;
    }
  }

  /** From any state of a server in which no two connected clients share a map, over all runs, drops included: no two
      ever share one exactly when, at each validation, no connected client holds the last map. */
  lemma {:induction false} AlwaysApartIff(s: State, events: seq<Event>)
    requires Inv(s) && Apart(s) && Run(s, events)
    ensures AlwaysApart(s, events) <==> LastMapFree(s, events)
    decreases |events|
  {
    hide Inv, Apart, LastMapHeld, Next;
    if events != [] {
      StepKeepsInv(s, events[0]);
      ApartStep(s, events[0]);
      if Apart(Next(s, events[0])) {
        AlwaysApartIff(Next(s, events[0]), events[1..]);
      }
    }
  }

  /** One of these clients holds the map that a client validated now is given: one less than there are connections. */
  predicate LastMapTaken(s: State, kept: set<nat>) {
    exists j :: 0 <= j < |s.members| && s.members[j].order in kept && s.members[j].given == Some(|s.members| - 1)
  }

  /** Whenever one of these clients is validated, none of them holds the last map. */
  predicate FreshRun(s: State, events: seq<Event>, kept: set<nat>)
    requires Run(s, events)
    decreases |events|
  {
    events != [] ==>
      && (events[0].Validate? && s.members[events[0].k].order in kept ==> !LastMapTaken(s, kept))
      && FreshRun(Next(s, events[0]), events[1..], kept)
  }

  function Orders(s: State): set<nat> {
    set m | m in s.members :: m.order
  }

  /** The clients still there are old ones or accepted since. */
  predicate Remain(s: State, kept: set<nat>) {
    forall o :: o in kept && o < s.accepted ==> o in Orders(s)
  }

  lemma OrderOf(s: State, i: nat)
    requires i < |s.members|
    ensures s.members[i].order in Orders(s)
  {
    assert s.members[i] in s.members;
  }

  lemma {:induction false} OrdersFrom(s: State, events: seq<Event>)
    requires Inv(s) && Run(s, events)
    ensures Remain(s, Orders(After(s, events)))
    ensures s.accepted <= After(s, events).accepted
    decreases |events|
  {
    hide Inv;
    if events != [] {
      StepKeepsInv(s, events[0]);
      OrdersFrom(Next(s, events[0]), events[1..]);
      StepOrders(s, events[0]);
      var kept := Orders(After(s, events));
      forall o | o in kept && o < s.accepted ensures o in Orders(s) {
        assert o in Orders(Next(s, events[0]));
      }
    }
  }

  lemma StepOrders(s: State, e: Event)
    requires Inv(s) && Possible(s, e)
    ensures s.accepted <= Next(s, e).accepted
    ensures forall o :: o in Orders(Next(s, e)) ==> o in Orders(s) || o == s.accepted
  {
    var t := Next(s, e);
    forall m | m in t.members ensures m.order in Orders(s) || m.order == s.accepted {
      var i :| 0 <= i < |t.members| && t.members[i] == m;
      match e
      case Arrive =>
        if i < |s.members| { OrderOf(s, i); }
      case Validate(k) => OrderOf(s, i);
      case Broadcast(connected) => KeepInOrder(s.members, connected, s.accepted);
    }
  }

  /** Over all runs, drops included: among the clients still connected in the end, no two share a map exactly when at
      each validation of one of them the last map was held by none of them. */
  lemma FinalMapsIff(maps: nat, events: seq<Event>)
    requires Run(Init(maps), events)
    ensures var s := After(Init(maps), events);
            DistinctAmong(s, Orders(s)) <==> FreshRun(Init(maps), events, Orders(s))
  {
    hide Run, After, FreshRun, Inv;
    assert Inv(Init(maps)) by { InitInv(maps); }
    OrdersFrom(Init(maps), events);
    FreshIff(Init(maps), events, Orders(After(Init(maps), events)));
  }

  lemma InitInv(maps: nat)
    ensures Inv(Init(maps))
  {
  }

  lemma {:induction false} FreshIff(s: State, events: seq<Event>, kept: set<nat>)
    requires Inv(s) && Run(s, events) && kept == Orders(After(s, events))
    ensures DistinctAmong(After(s, events), kept) <==> DistinctAmong(s, kept) && FreshRun(s, events, kept)
    decreases |events|
  {
    hide Inv, DistinctAmong, LastMapTaken, Orders;
    if events != [] {
      var next := Next(s, events[0]);
      StepKeepsInv(s, events[0]);
      FreshIff(next, events[1..], kept);
      OrdersFrom(next, events[1..]);
      FreshStep(s, events[0], kept);
    }
  }

  lemma FreshStep(s: State, e: Event, kept: set<nat>)
    requires Inv(s) && Possible(s, e) && Remain(Next(s, e), kept)
    ensures DistinctAmong(Next(s, e), kept)
       <==> DistinctAmong(s, kept)
            && (e.Validate? && s.members[e.k].order in kept ==> !LastMapTaken(s, kept))
  {
    match e
    case Arrive => ArriveFresh(s, kept);
    case Validate(k) => ValidateFresh(s, k, kept);
    case Broadcast(connected) => BroadcastFresh(s, connected, kept);
  }

  lemma ArriveFresh(s: State, kept: set<nat>)
    ensures DistinctAmong(Next(s, Arrive), kept) <==> DistinctAmong(s, kept)
  {
    assert forall j :: 0 <= j < |s.members| ==> Next(s, Arrive).members[j] == s.members[j];
  }

  lemma ValidateFresh(s: State, k: nat, kept: set<nat>)
    requires Possible(s, Validate(k))
    ensures DistinctAmong(Next(s, Validate(k)), kept)
       <==> DistinctAmong(s, kept) && (s.members[k].order in kept ==> !LastMapTaken(s, kept))
  {
    var t := Next(s, Validate(k));
    assert t.members[k].given == Some(|s.members| - 1) && t.members[k].order == s.members[k].order;
    assert forall j :: 0 <= j < |s.members| && j != k ==> t.members[j] == s.members[j];
    if DistinctAmong(t, kept) {
      forall i, j | 0 <= i < j < |s.members| && s.members[i].order in kept && s.members[j].order in kept
                    && s.members[i].given.Some? && s.members[j].given.Some?
        ensures s.members[i].given != s.members[j].given
      {
        assert i != k && j != k;
      }
    }
  }

  /** A drop changes nothing among the clients that stay to the end. */
  lemma BroadcastFresh(s: State, connected: seq<bool>, kept: set<nat>)
    requires Inv(s) && Possible(s, Broadcast(connected)) && Remain(Next(s, Broadcast(connected)), kept)
    ensures DistinctAmong(Next(s, Broadcast(connected)), kept) <==> DistinctAmong(s, kept)
  {
    var t := Next(s, Broadcast(connected));
    KeepInOrder(s.members, connected, s.accepted);
    ByOrders(s, kept);
    ByOrders(t, kept);
    forall m | m in s.members && m.order in kept ensures m in t.members {
      assert m.order in Orders(t);
      var n :| n in t.members && n.order == m.order;
      assert n in s.members;
      SameOrder(s, m, n);
    }
  }

  lemma SameOrder(s: State, m: Member, n: Member)
    requires Inv(s) && m in s.members && n in s.members && m.order == n.order
    ensures m == n
  {
    var i :| 0 <= i < |s.members| && s.members[i] == m;
    var j :| 0 <= j < |s.members| && s.members[j] == n;
  }

  /** The same without positions, clients being told apart by their orders. */
  lemma ByOrders(s: State, kept: set<nat>)
    requires InOrder(s.members, s.accepted)
    ensures DistinctAmong(s, kept)
       <==> forall m, n :: m in s.members && n in s.members ==>
              m.order in kept && n.order in kept && m.given.Some? && n.given.Some? && m.order != n.order ==>
                m.given != n.given
  {
    if DistinctAmong(s, kept) {
      forall m, n | m in s.members && n in s.members && m.order in kept && n.order in kept
                    && m.given.Some? && n.given.Some? && m.order != n.order
        ensures m.given != n.given
      {
        var i :| 0 <= i < |s.members| && s.members[i] == m;
        var j :| 0 <= j < |s.members| && s.members[j] == n;
      }
    }
  }

  lemma RunStep(s: State, e: Event, rest: seq<Event>)
    requires Possible(s, e)
    ensures Run(s, [e] + rest) <==> Run(Next(s, e), rest)
    ensures Run(Next(s, e), rest) ==> After(s, [e] + rest) == After(Next(s, e), rest)
  {
    assert ([e] + rest)[1..] == rest;
  }

  /** Two members hold the same map. */
  predicate ShareMap(s: State, i: nat, j: nat) {
    i < j < |s.members| && s.members[i].given.Some? && s.members[i].given == s.members[j].given
  }

  /** Two clients accepted before either is validated share a map. */
  lemma LateValidationCollides()
    ensures var events := [Arrive, Arrive, Validate(0), Validate(1)];
            Run(Init(2), events) && ShareMap(After(Init(2), events), 0, 1)
  {
    hide Run, After;
    var s1 := Next(Init(2), Arrive);
    var s2 := Next(s1, Arrive);
    var s3 := Next(s2, Validate(0));
    var s4 := Next(s3, Validate(1));
    EmptyRun(s4);
    RunStep(s3, Validate(1), []);
    RunStep(s2, Validate(0), [Validate(1)] + []);
    RunStep(s1, Arrive, [Validate(0)] + ([Validate(1)] + []));
    RunStep(Init(2), Arrive, [Arrive] + ([Validate(0)] + ([Validate(1)] + [])));
    assert [Arrive] + ([Arrive] + ([Validate(0)] + ([Validate(1)] + []))) == [Arrive, Arrive, Validate(0), Validate(1)];
  }

  lemma EmptyRun(s: State)
    ensures Run(s, []) && After(s, []) == s
  {
  }

  /** Even prompt validation does not help then: a client dropped by a broadcast makes room for one that
      then shares the map of another. */
  lemma RemovalCollides()
    ensures var events := [Arrive, Validate(0), Arrive, Validate(1), Broadcast([false, true]), Arrive, Validate(1)];
            Run(Init(2), events) && ShareMap(After(Init(2), events), 0, 1)
  {
    hide Run, After;
    var drop := Broadcast([false, true]);
    var s1 := Next(Init(2), Arrive);
    var s2 := Next(s1, Validate(0));
    var s3 := Next(s2, Arrive);
    var s4 := Next(s3, Validate(1));
    var s5 := Next(s4, drop);
    FirstDropped(s4.members);
    var s6 := Next(s5, Arrive);
    var s7 := Next(s6, Validate(1));
    EmptyRun(s7);
    RunStep(s6, Validate(1), []);
    RunStep(s5, Arrive, [Validate(1)] + []);
    RunStep(s4, drop, [Arrive] + ([Validate(1)] + []));
    RunStep(s3, Validate(1), [drop] + ([Arrive] + ([Validate(1)] + [])));
    RunStep(s2, Arrive, [Validate(1)] + ([drop] + ([Arrive] + ([Validate(1)] + []))));
    RunStep(s1, Validate(0), [Arrive] + ([Validate(1)] + ([drop] + ([Arrive] + ([Validate(1)] + [])))));
    RunStep(Init(2), Arrive,
            [Validate(0)] + ([Arrive] + ([Validate(1)] + ([drop] + ([Arrive] + ([Validate(1)] + []))))));
    assert [Arrive] + ([Validate(0)] + ([Arrive] + ([Validate(1)] + ([drop] + ([Arrive] + ([Validate(1)] + []))))))
        == [Arrive, Validate(0), Arrive, Validate(1), drop, Arrive, Validate(1)];
  }

  lemma FirstDropped(members: seq<Member>)
    requires |members| == 2
    ensures Keep(members, [false, true]) == [members[1]]
  {
    assert Keep(members[..1], [false]) == [];
  }
}
