/** All of a server's connections and the one queue of incoming messages they share, common/network/NetConnection.h
    and NetServerInterface.h: every message is queued with the connection it came from. */
module Hubs {
  import opened Bytes
  import opened Params
  import opened Messages
  import opened Framing
  import opened Endpoints
  import opened OpenSystem
  import opened Network
  import Queues

  /** OwnedMessage: a message and the number of the client that sent it. */
  datatype Tagged = Tagged(client: nat, msg: Msg)

  /** A network for each client, and the shared queue with its consumer. */
  datatype Hub = Hub(nets: seq<Net>, queue: Queues.System<Tagged>)

  datatype HubAction =
    | Move(k: nat, a: NetAction)
    | Consume(act: Queues.Action<Tagged>)

  function HubInit(challenges: seq<uint64>, pendings: seq<seq<Msg>>): (h: Hub)
    requires |challenges| == |pendings|
    ensures |h.nets| == |challenges|
  {
    Hub(seq(|challenges|, k requires 0 <= k < |challenges| => NetInit(challenges[k], pendings[k])), Queues.Init())
  }

  predicate HubEnabled(h: Hub, act: HubAction) {
    match act
    case Move(k, a) => k < |h.nets| && NetEnabled(h.nets[k], a)
    case Consume(act) =>
      Queues.Enabled(h.queue, act) && !act.Push? && (act.Pop? ==> h.queue.queue != [])
  }

  /** What a step of one network handed to the shared queue. */
  function Handed(k: nat, before: Net, after: Net): seq<Tagged> {
    var d, e := before.server.inp.delivered, after.server.inp.delivered;
    if |d| < |e| then [Tagged(k, e[|d|])] else []
  }

  function Pushed(q: Queues.System<Tagged>, ts: seq<Tagged>): Queues.System<Tagged> {
    if ts == [] then q else Queues.Next(q, Queues.Push(ts[0]))
  }

  function HubNext(h: Hub, act: HubAction, greetings: seq<seq<Msg>>): Hub
    requires |greetings| == |h.nets| && HubEnabled(h, act)
  {
    match act
    case Move(k, a) =>
      var n := NetNext(h.nets[k], a, greetings[k]);
      Hub(h.nets[k := n], Pushed(h.queue, Handed(k, h.nets[k], n)))
    case Consume(act) => h.(queue := Queues.Next(h.queue, act))
  }

  /** The messages of client k, in order. */
  function Of(ts: seq<Tagged>, k: nat): seq<Msg> {
    if ts == [] then []
    else
      var n := |ts| - 1;
      if ts[n].client == k then Of(ts[..n], k) + [ts[n].msg] else Of(ts[..n], k)
  }

  lemma {:induction false} OfConcat(a: seq<Tagged>, b: seq<Tagged>, k: nat)
    ensures Of(a + b, k) == Of(a, k) + Of(b, k)
  {
    if b == [] {
      assert a + b == a;
    } else {
      assert (a + b)[..|a + b| - 1] == a + b[..|b| - 1];
      OfConcat(a, b[..|b| - 1], k);
    }
  }

  predicate Known(ts: seq<Tagged>, count: nat) {
    forall j :: 0 <= j < |ts| ==> ts[j].client < count
  }

  /** What every step keeps: each network's own state, the queue's, and that all messages any connection delivered have
      arrived in the queue in their order. */
  ghost predicate HubState(h: Hub) {
    && (forall k :: 0 <= k < |h.nets| ==> NetState(h.nets[k]))
    && Queues.Inv(h.queue)
    && Known(h.queue.arrived, |h.nets|)
    && forall k :: 0 <= k < |h.nets| ==> Of(h.queue.arrived, k) == h.nets[k].server.inp.delivered
  }

  /** A step delivers at most one message. */
  lemma DeliversOne(e: Endpoint, act: Action, greeting: seq<Msg>)
    requires Enabled(e, act)
    ensures var d, f := e.inp.delivered, Next(e, act, greeting).inp.delivered;
            f == d || (|f| == |d| + 1 && f[..|d|] == d)
  {
    hide HeaderBytes, HeaderSize, WordOf, WordBytes, RunPostedOf, FrameWrittenOf, Emit, EmitWord;
  }

  lemma HandedIsNew(k: nat, n: Net, a: NetAction, greeting: seq<Msg>)
    requires NetEnabled(n, a)
    ensures var m := NetNext(n, a, greeting);
            && m.server.inp.delivered == n.server.inp.delivered + Of(Handed(k, n, m), k)
            && Known(Handed(k, n, m), k + 1)
            && forall j :: j != k ==> Of(Handed(k, n, m), j) == []
  {
    hide Enabled, Next, Sent, Remaining;
    if a.ByServer? {
      DeliversOne(n.server, a.act, greeting);
    }
    var ts := Handed(k, n, NetNext(n, a, greeting));
    assert ts != [] ==> ts[..0] == [] && Of(ts[..0], k) == [];
  }

  lemma PushedKeeps(q: Queues.System<Tagged>, ts: seq<Tagged>)
    requires Queues.Inv(q) && |ts| <= 1
    ensures Queues.Inv(Pushed(q, ts)) && Pushed(q, ts).arrived == q.arrived + ts
  {
    hide Queues.Inv;
    if ts != [] {
      Queues.StepKeepsInv(q, Queues.Push(ts[0]));
    }
  }

  lemma MoveKeepsState(h: Hub, k: nat, a: NetAction, greetings: seq<seq<Msg>>)
    requires HubState(h) && |greetings| == |h.nets| && HubEnabled(h, Move(k, a)) && AllWellFramed(greetings[k])
    ensures HubState(HubNext(h, Move(k, a), greetings))
  {
    hide NetState, NetEnabled, NetNext, Queues.Inv, Handed, Pushed, Of;
    var n, m := h.nets[k], NetNext(h.nets[k], a, greetings[k]);
    var ts := Handed(k, n, m);
    NetStepKeepsState(n, a, greetings[k]);
    HandedIsNew(k, n, a, greetings[k]);
    AtMostOne(k, n, m);
    PushedKeeps(h.queue, ts);
    forall j | 0 <= j < |h.nets|
      ensures Of(h.queue.arrived + ts, j) == HubNext(h, Move(k, a), greetings).nets[j].server.inp.delivered
    {
      OfConcat(h.queue.arrived, ts, j);
    }
  }

  lemma AtMostOne(k: nat, n: Net, m: Net)
    ensures |Handed(k, n, m)| <= 1
  {
  }

  lemma ConsumeKeepsState(h: Hub, act: Queues.Action<Tagged>, greetings: seq<seq<Msg>>)
    requires HubState(h) && |greetings| == |h.nets| && HubEnabled(h, Consume(act))
    ensures HubState(HubNext(h, Consume(act), greetings))
  {
    hide NetState, Queues.Inv, Of;
    Queues.StepKeepsInv(h.queue, act);
  }

  predicate AllGood(greetings: seq<seq<Msg>>) {
    forall k :: 0 <= k < |greetings| ==> AllWellFramed(greetings[k])
  }

  predicate HubRun(h: Hub, acts: seq<HubAction>, greetings: seq<seq<Msg>>)
    requires |greetings| == |h.nets|
    decreases |acts|
  {
    acts == [] || (HubEnabled(h, acts[0]) && HubRun(HubNext(h, acts[0], greetings), acts[1..], greetings))
  }

  function HubAfter(h: Hub, acts: seq<HubAction>, greetings: seq<seq<Msg>>): (m: Hub)
    requires |greetings| == |h.nets| && HubRun(h, acts, greetings)
    ensures |m.nets| == |h.nets|
    decreases |acts|
  {
    if acts == [] then h else HubAfter(HubNext(h, acts[0], greetings), acts[1..], greetings)
  }

  lemma {:induction false} HubRunKeepsState(h: Hub, acts: seq<HubAction>, greetings: seq<seq<Msg>>)
    requires HubState(h) && |greetings| == |h.nets| && HubRun(h, acts, greetings) && AllGood(greetings)
    ensures HubState(HubAfter(h, acts, greetings))
    decreases |acts|
  {
    hide HubState, HubEnabled;
    if acts != [] {
      match acts[0]
      case Move(k, a) =>
        InRange(h, acts[0]);
        MoveKeepsState(h, k, a, greetings);
        HubRunKeepsState(HubNext(h, acts[0], greetings), acts[1..], greetings);
      case Consume(act) =>
        ConsumeKeepsState(h, act, greetings);
        HubRunKeepsState(HubNext(h, acts[0], greetings), acts[1..], greetings);
    }
  }

  lemma InRange(h: Hub, act: HubAction)
    requires HubEnabled(h, act) && act.Move?
    ensures act.k < |h.nets|
  {
  }

  lemma HubInitState(challenges: seq<uint64>, pendings: seq<seq<Msg>>)
    requires |challenges| == |pendings| && AllGood(pendings)
    ensures HubState(HubInit(challenges, pendings))
  {
    hide NetState, InOrder, NetInit, AllWellFramed, Queues.Inv;
    Queues.InitInv<Tagged>();
    forall k | 0 <= k < |challenges|
      ensures NetState(NetInit(challenges[k], pendings[k]))
      ensures NetInit(challenges[k], pendings[k]).server.inp.delivered == []
    {
      NetInitState(challenges[k], pendings[k]);
      NothingYet(challenges[k], pendings[k]);
    }
  }

  lemma NothingYet(challenge: uint64, pending: seq<Msg>)
    ensures NetInit(challenge, pending).server.inp.delivered == []
  {
  }

  lemma PrefixOf(a: seq<Tagged>, b: seq<Tagged>, k: nat)
    requires a <= b
    ensures Of(a, k) <= Of(b, k)
  {
    OfConcat(a, b[|a|..], k);
    assert a + b[|a|..] == b;
  }

  lemma ViewsPrefix(a: seq<Msg>, b: seq<Msg>)
    requires a <= b
    ensures Views(a) <= Views(b)
  {
    hide ViewOf;
  }

  /** Over all interleavings of any number of connections, their clients and the consumer: every message handled is
      tagged with one of the clients, and for each client the messages handled as its own are the beginning of those
      that its connection delivered, each once and in order, and so of those it sent; what is missing is in the
      consumer's hand or still queued. */
  lemma EachClientInOrder(challenges: seq<uint64>, pendings: seq<seq<Msg>>, greetings: seq<seq<Msg>>,
                          acts: seq<HubAction>)
    requires |challenges| == |pendings| == |greetings| && AllGood(pendings) && AllGood(greetings)
    requires HubRun(HubInit(challenges, pendings), acts, greetings)
    ensures var h := HubAfter(HubInit(challenges, pendings), acts, greetings);
            var q := h.queue;
            && Known(q.handled, |h.nets|)
            && forall k :: 0 <= k < |h.nets| ==>
                 && Of(q.handled + Queues.InHand(q) + q.queue, k) == h.nets[k].server.inp.delivered
                 && Of(q.handled, k) <= h.nets[k].server.inp.delivered
                 && Views(Of(q.handled, k)) <= Views(h.nets[k].client.out.posted)
  {
    hide NetState, HubInit, HubEnabled, HubNext, Of, Views, Received, Queues.Inv;
    HubInitState(challenges, pendings);
    HubRunKeepsState(HubInit(challenges, pendings), acts, greetings);
    var h := HubAfter(HubInit(challenges, pendings), acts, greetings);
    var q := h.queue;
    Queues.InvMeans(q);
    assert q.handled <= q.arrived;
    assert forall j :: 0 <= j < |q.handled| ==> q.handled[j] == q.arrived[j];
    forall k | 0 <= k < |h.nets|
      ensures Of(q.handled, k) <= h.nets[k].server.inp.delivered
      ensures Views(Of(q.handled, k)) <= Views(h.nets[k].client.out.posted)
    {
      PrefixOf(q.handled, q.arrived, k);
      ViewsPrefix(Of(q.handled, k), h.nets[k].server.inp.delivered);
      ServerViews(h.nets[k]);
    }
  }

  lemma ServerViews(n: Net)
    requires NetState(n)
    ensures Views(n.server.inp.delivered) <= Views(n.client.out.posted)
  {
    ClientDelivery(n);
    hide FreeState, EndpointState, WriterStream, Ahead, Channel, ViewOf, Received;
    PrefixViews(n.client.out.posted, |n.server.inp.delivered|);
  }
}
