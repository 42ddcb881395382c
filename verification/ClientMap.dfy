/** The client's map loop, client/src/ClientMap.cpp: each round appends the current entities to one message that is
    never cleared, and sends a copy of it. */
module ClientMaps {
  import opened Bytes
  import opened Options
  import opened Params
  import opened Messages
  import opened Framing
  import opened Endpoints
  import opened OpenSystem
  import opened Network
  import opened Connections
  import opened Clients
  import opened Grids
  import opened Screens
  import opened Maps

  type Snapshot = seq<Entity>

  function SnapshotItem(es: Snapshot): (item: Item)
    ensures ValidItem(item)
  {
    Array(ENTITY_WIDTH, EncodeEntities(es))
  }

  function SnapshotItems(snaps: seq<Snapshot>): (items: seq<Item>)
    ensures |items| == |snaps|
    ensures ValidItems(items)
  {
    seq(|snaps|, k requires 0 <= k < |snaps| => SnapshotItem(snaps[k]))
  }

  const BLANK_MESSAGE: Msg := Msg(SEND_ENTITIES, 0, [])

  /** The message as it stands after these rounds. */
  function Accumulated(snaps: seq<Snapshot>): Msg {
    PushAll(BLANK_MESSAGE, SnapshotItems(snaps))
  }

  /** What the rounds sent: one message a round. */
  function RoundMessages(snaps: seq<Snapshot>): (ms: seq<Msg>)
    ensures |ms| == |snaps|
    ensures forall k :: 0 <= k < |snaps| ==> ms[k] == Accumulated(snaps[..k + 1])
  {
    seq(|snaps|, k requires 0 <= k < |snaps| => Accumulated(snaps[..k + 1]))
  }

  class ClientMap {
    const area: Map                         // the Map it extends
    const entityMessage: MessageBuffer      // m_entity_message
    const connection: Connection            // *mptr_connection

    constructor (area: Map, connection: Connection)
      ensures entityMessage.Value() == Accumulated([]) && fresh(entityMessage)
      ensures this.area == area && this.connection == connection
    {
      this.area, this.connection := area, connection;
      entityMessage := new MessageBuffer(SEND_ENTITIES);
    }

    /** The end of a pass of run's loop: the entities the map holds then are added to the message and sent. */
    method Report(snapshot: Snapshot)
      modifies entityMessage, connection
      ensures entityMessage.Value() == Push(old(entityMessage.Value()), Flatten(EncodeEntities(snapshot)))
      ensures connection.State() == Next(old(connection.State()), Post(entityMessage.Value()), [])
    {
      entityMessage.PushBackComplex(EncodeEntities(snapshot), ENTITY_WIDTH);
      connection.Send(Msg(entityMessage.id, entityMessage.size, entityMessage.body));
    }

    /** run: start_up, then in each pass an update of the map with the entities of that moment, and a report of those of
        a later one, until an update throws. done is the number of full passes. */
    method Run(updates: seq<Snapshot>, reports: seq<Snapshot>) returns (done: nat)
      requires area.Valid() && entityMessage.Value() == Accumulated([]) && |updates| == |reports|
      modifies entityMessage, connection, area.grid, area.buffer.cells
      ensures var grids := IndexHistory(old(area.grid[..]), updates, area.config.width);
              && done == |grids|
              && area.buffer.cells[..] == Paint(old(area.buffer.cells[..]), area.buffer.width, area.buffer.height,
                                                StartUpGlyphs(area.config) + Renders(area.config, grids))
      ensures entityMessage.Value() == Accumulated(reports[..done])
      ensures connection.State()
           == old(connection.State()).(out := Queue(old(connection.State()).out, RoundMessages(reports[..done])))
    {
      hide Accumulated, EncodeEntities, Flatten, Paint, Draw, StartUpGlyphs, RenderGlyphs, IndexHistory, Renders,
           Latest, Apply, Stores, Queue, Connection.State, RoundMessages;
      ghost var start, g, before, c := connection.State(), area.grid[..], area.buffer.cells[..], area.config;
      ghost var w, h := area.buffer.width, area.buffer.height;
      area.StartUp();
      HistoryStarts(g, updates, c.width, c);
      NothingReported(start.out);
      assert reports[..0] == [];
      for i := 0 to |updates|
        invariant entityMessage.Value() == Accumulated(reports[..i])
        invariant connection.State() == start.(out := Queue(start.out, RoundMessages(reports[..i])))
        invariant |IndexHistory(g, updates[..i], c.width)| == i
        invariant area.grid[..] == Latest(g, IndexHistory(g, updates[..i], c.width))
        invariant area.buffer.cells[..]
               == Paint(before, w, h, StartUpGlyphs(c) + Renders(c, IndexHistory(g, updates[..i], c.width)))
      {
        ghost var grids := IndexHistory(g, updates[..i], c.width);
        ghost var next := Apply(area.grid[..], Stores(updates[i], c.width)).grid;
        HistoryNext(g, updates, c.width, i);
        RendersNext(c, grids, next);
        PaintConcat(before, w, h, StartUpGlyphs(c) + Renders(c, grids), RenderGlyphs(c, next));
        var thrown := area.UpdateEntities(updates[i]);
        if thrown {
          return i;
        }
        AccumulatedNext(reports[..i], reports[i]);
        assert reports[..i + 1] == reports[..i] + [reports[i]];
        Report(reports[i]);
        PostQueues(start, RoundMessages(reports[..i]), Accumulated(reports[..i + 1]));
      }
      assert updates[..|updates|] == updates && reports[..|updates|] == reports;
      done := |updates|;
    }
  }

  lemma NothingReported(w: Writer)
    ensures Queue(w, RoundMessages([])) == w
  {
  }

  lemma QueueNext(w: Writer, ms: seq<Msg>, m: Msg)
    ensures Queue(Queue(w, ms), [m]) == Queue(w, ms + [m])
  {
  }

  lemma PostQueues(e: Endpoint, ms: seq<Msg>, m: Msg)
    ensures Next(e.(out := Queue(e.out, ms)), Post(m), []) == e.(out := Queue(e.out, ms + [m]))
  {
    QueueNext(e.out, ms, m);
  }

  /** One more round pushes one more snapshot and sends the result. */
  lemma AccumulatedNext(snaps: seq<Snapshot>, es: Snapshot)
    ensures Accumulated(snaps + [es]) == Push(Accumulated(snaps), Flatten(EncodeEntities(es)))
    ensures RoundMessages(snaps + [es]) == RoundMessages(snaps) + [Accumulated(snaps + [es])]
  {
    hide EncodeEntities, Flatten, Push, AllWide, ValidItem, ValidItems;
    var all := snaps + [es];
    assert SnapshotItems(all)[..|snaps|] == SnapshotItems(snaps);
    RoundsNext(snaps, es);
  }

  lemma RoundsNext(snaps: seq<Snapshot>, es: Snapshot)
    ensures RoundMessages(snaps + [es]) == RoundMessages(snaps) + [Accumulated(snaps + [es])]
  {
    hide Accumulated;
    var all := snaps + [es];
    assert forall k {:trigger all[..k + 1]} :: 0 <= k < |snaps| ==> all[..k + 1] == snaps[..k + 1];
    assert all[..|snaps| + 1] == all;
  }

  /** The images of the snapshots, one behind the other. */
  function SnapshotBytes(snaps: seq<Snapshot>): seq<byte> {
    if snaps == [] then []
    else SnapshotBytes(snaps[..|snaps| - 1]) + Flatten(EncodeEntities(snaps[|snaps| - 1]))
  }

  function TotalCount(snaps: seq<Snapshot>): nat {
    if snaps == [] then 0 else TotalCount(snaps[..|snaps| - 1]) + |snaps[|snaps| - 1]|
  }

  lemma NothingAccumulated()
    ensures Accumulated([]) == BLANK_MESSAGE
  {
  }

  /** After any number of rounds the body is the concatenation of all snapshots so far, and the header holds its
      length cut to 32 bits. */
  lemma {:induction false} AccumulatedBody(snaps: seq<Snapshot>)
    ensures Accumulated(snaps).id == SEND_ENTITIES && Stamped(Accumulated(snaps))
    ensures Accumulated(snaps).body == SnapshotBytes(snaps)
    ensures |SnapshotBytes(snaps)| == ENTITY_WIDTH * TotalCount(snaps)
  {
    hide EncodeEntities, Flatten, Accumulated;
    if snaps == [] {
      NothingAccumulated();
    } else {
      var front, es := snaps[..|snaps| - 1], snaps[|snaps| - 1];
      AccumulatedBody(front);
      AccumulatedNext(front, es);
      assert front + [es] == snaps;
      FlattenLength(EncodeEntities(es), ENTITY_WIDTH);
    }
  }

  /** The message still frames correctly exactly while all snapshots together stay below 4 GiB. */
  lemma AccumulatedFramedIff(snaps: seq<Snapshot>)
    ensures WellFramed(Accumulated(snaps)) <==> ENTITY_WIDTH * TotalCount(snaps) < 0x1_0000_0000
  {
    hide Accumulated, SnapshotBytes;
    AccumulatedBody(snaps);
  }

  // What a reader gets from such a message.

  /** One pull of entities: what it returns, and the message it leaves. */
  datatype Pull = NoRoom | Pull(entities: Snapshot, rest: Msg)

  function PullEntities(m: Msg, count: nat): Pull {
    if ENTITY_WIDTH * count > |m.body| then NoRoom
    else Pull(PulledEntities(m, count), Popped(m, ENTITY_WIDTH * count))
  }

  /** Repeated pulls, with the counts in the order of pulling. */
  function PullRepeatedly(m: Msg, counts: seq<nat>): Option<(seq<Snapshot>, Msg)>
    decreases |counts|
  {
    if counts == [] then Some(([], m))
    else
      match PullEntities(m, counts[0])
      case NoRoom => None
      case Pull(es, rest) =>
        match PullRepeatedly(rest, counts[1..])
        case None => None
        case Some(more) => Some(([es] + more.0, more.1))
  }

  function Counts(snaps: seq<Snapshot>): (counts: seq<nat>)
    ensures |counts| == |snaps|
  {
    seq(|snaps|, k requires 0 <= k < |snaps| => |snaps[k]|)
  }

  /** The last n snapshots, newest first. */
  function Newest(snaps: seq<Snapshot>, n: nat): (r: seq<Snapshot>)
    requires n <= |snaps|
    ensures |r| == n
    ensures forall k :: 0 <= k < n ==> r[k] == snaps[|snaps| - 1 - k]
  {
    seq(n, k requires 0 <= k < n => snaps[|snaps| - 1 - k])
  }

  /** Pulling the current count from the latest message gives the latest snapshot and leaves the previous message. */
  lemma PullUndoesRound(snaps: seq<Snapshot>, es: Snapshot)
    ensures PullEntities(Accumulated(snaps + [es]), |es|) == Pull(es, Accumulated(snaps))
  {
    hide Accumulated, PulledEntities, EncodeEntities, Flatten;
    var m := Accumulated(snaps);
    AccumulatedNext(snaps, es);
    AccumulatedBody(snaps);
    EntitiesComeBack(m, es);
    FlattenLength(EncodeEntities(es), ENTITY_WIDTH);
    assert (m.body + Flatten(EncodeEntities(es)))[..|m.body|] == m.body;
  }

  /** Repeated pulls go back in time: they return the snapshots newest first and uncover the older messages. */
  lemma {:induction false} NewestFirst(snaps: seq<Snapshot>, n: nat)
    requires n <= |snaps|
    ensures PullRepeatedly(Accumulated(snaps), Counts(Newest(snaps, n)))
         == Some((Newest(snaps, n), Accumulated(snaps[..|snaps| - n])))
  {
    hide Accumulated, PullEntities;
    var last := |snaps| - 1;
    if n == 0 {
      assert snaps[..|snaps|] == snaps;
    } else {
      var front := snaps[..last];
      assert front + [snaps[last]] == snaps;
      PullUndoesRound(front, snaps[last]);
      NewestFirst(front, n - 1);
      assert Newest(snaps, n)[1..] == Newest(front, n - 1);
      assert Counts(Newest(snaps, n))[1..] == Counts(Newest(front, n - 1));
      assert Newest(snaps, n) == [snaps[last]] + Newest(front, n - 1);
      assert front[..|front| - (n - 1)] == snaps[..|snaps| - n];
    }
  }

  // Over the network.

  lemma {:induction false} CountsGrow(snaps: seq<Snapshot>, i: nat, j: nat)
    requires i <= j <= |snaps|
    ensures TotalCount(snaps[..i]) <= TotalCount(snaps[..j])
    decreases j
  {
    if i < j {
      assert snaps[..j][..j - 1] == snaps[..j - 1];
      CountsGrow(snaps, i, j - 1);
    }
  }

  /** No round's message loses its body, so none of them arrives with a left-over one. */
  lemma RoundsBodilessFirst(snaps: seq<Snapshot>)
    ensures BodilessFirst(RoundMessages(snaps))
  {
    hide Accumulated, TotalCount, SnapshotBytes;
    var ms := RoundMessages(snaps);
    forall i | 0 <= i < |ms| && |ms[i].body| > 0 ensures AllBodies(ms[i..]) {
      forall k | 0 <= k < |ms[i..]| ensures |ms[i..][k].body| > 0 {
        AccumulatedBody(snaps[..i + 1]);
        AccumulatedBody(snaps[..i + k + 1]);
        CountsGrow(snaps, i + 1, i + k + 1);
      }
    }
  }

  lemma RoundsWellFramed(snaps: seq<Snapshot>)
    requires ENTITY_WIDTH * TotalCount(snaps) < 0x1_0000_0000
    ensures AllWellFramed(RoundMessages(snaps))
  {
    hide Accumulated, TotalCount;
    forall k | 0 <= k < |snaps| ensures WellFramed(RoundMessages(snaps)[k]) {
      CountsGrow(snaps, k + 1, |snaps|);
      assert snaps[..|snaps|] == snaps;
      AccumulatedFramedIff(snaps[..k + 1]);
    }
  }

  /** In every reachable state of every run in which the client has sent exactly its rounds, the k-th message handed
      to the server is the k-th accumulated one, and its top is exactly the k-th snapshot. */
  lemma SnapshotsArrive(challenge: uint64, pending: seq<Msg>, acts: seq<NetAction>, greeting: seq<Msg>,
                        snaps: seq<Snapshot>)
    requires AllWellFramed(pending) && AllWellFramed(greeting)
    requires NetRun(NetInit(challenge, pending), acts, greeting)
    requires ENTITY_WIDTH * TotalCount(snaps) < 0x1_0000_0000
    requires After(NetInit(challenge, pending), acts, greeting).client.out.posted == RoundMessages(snaps)
    ensures var d := After(NetInit(challenge, pending), acts, greeting).server.inp.delivered;
            && d <= RoundMessages(snaps)
            && forall k :: 0 <= k < |d| ==>
                 PullEntities(d[k], |snaps[k]|) == Pull(snaps[k], Accumulated(snaps[..k]))
  {
    hide FreeState, WriterStream, Ahead, Accumulated, Received, PullEntities, TotalCount, AllWellFramed, RoundMessages;
    NetInitState(challenge, pending);
    NetRunKeepsState(NetInit(challenge, pending), acts, greeting);
    var n := After(NetInit(challenge, pending), acts, greeting);
    RoundsWellFramed(snaps);
    ClientDelivery(n);
    RoundsReceived(snaps, |n.server.inp.delivered|);
    TopsOfRounds(snaps, n.server.inp.delivered);
  }

  /** The first k rounds are received unchanged. */
  lemma RoundsReceived(snaps: seq<Snapshot>, k: nat)
    requires k <= |snaps| && AllWellFramed(RoundMessages(snaps))
    ensures Received([], RoundMessages(snaps)[..k]) == RoundMessages(snaps)[..k]
  {
    hide Accumulated, Received, BodilessFirst;
    var ms := RoundMessages(snaps);
    RoundsBodilessFirst(snaps);
    ReceivedExactIff(ms);
    ReceivedConcat([], ms[..k], ms[k..]);
    assert ms[..k] + ms[k..] == ms;
  }

  lemma TopsOfRounds(snaps: seq<Snapshot>, d: seq<Msg>)
    requires d <= RoundMessages(snaps)
    ensures forall k :: 0 <= k < |d| ==> PullEntities(d[k], |snaps[k]|) == Pull(snaps[k], Accumulated(snaps[..k]))
  {
    hide Accumulated, PullEntities;
    forall k | 0 <= k < |d|
      ensures PullEntities(d[k], |snaps[k]|) == Pull(snaps[k], Accumulated(snaps[..k]))
    {
      assert snaps[..k + 1] == snaps[..k] + [snaps[k]];
      PullUndoesRound(snaps[..k], snaps[k]);
    }
  }
}
