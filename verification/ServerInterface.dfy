/** The server's bookkeeping of its connections, common/network/NetServerInterface.h, with the admission rule of
    server/src/Server.cpp. */
module ServerInterfaces {
  import opened Bytes
  import opened Options
  import opened Params
  import opened Messages
  import opened Endpoints
  import opened Connections

  /** The elements whose flag is set, in order. */
  function Keep<T>(xs: seq<T>, flags: seq<bool>): (r: seq<T>)
    requires |flags| == |xs|
  {
    if xs == [] then []
    else
      var n := |xs| - 1;
      if flags[n] then Keep(xs[..n], flags[..n]) + [xs[n]] else Keep(xs[..n], flags[..n])
  }

  function Flip(flags: seq<bool>): (r: seq<bool>)
    ensures |r| == |flags| && forall k :: 0 <= k < |flags| ==> r[k] == !flags[k]
  {
    seq(|flags|, k requires 0 <= k < |flags| => !flags[k])
  }

  /** Exactly the flagged elements are kept. */
  lemma {:induction false} KeepExact<T>(xs: seq<T>, flags: seq<bool>)
    requires |flags| == |xs|
    ensures forall x :: x in Keep(xs, flags) <==> exists k :: 0 <= k < |xs| && xs[k] == x && flags[k]
    ensures |Keep(xs, flags)| + |Keep(xs, Flip(flags))| == |xs|
  {
    if xs != [] {
      var n := |xs| - 1;
      KeepExact(xs[..n], flags[..n]);
      assert Flip(flags)[..n] == Flip(flags[..n]);
      forall x
        ensures x in Keep(xs, flags) <==> exists k :: 0 <= k < |xs| && xs[k] == x && flags[k]
      {
        if k :| 0 <= k < n && xs[k] == x && flags[k] {
          assert xs[..n][k] == x && flags[..n][k];
        }
        if x in Keep(xs[..n], flags[..n]) {
          var k :| 0 <= k < n && xs[..n][k] == x && flags[..n][k];
          assert xs[k] == x && flags[k];
        }
      }
    }
  }

  lemma NothingKept<T>(xs: seq<T>, flags: seq<bool>)
    requires |flags| == |xs|
    ensures Keep(xs[..0], flags[..0]) == []
  {
  }

  lemma KeepNext<T>(xs: seq<T>, flags: seq<bool>, i: nat)
    requires |flags| == |xs| && i < |xs|
    ensures Keep(xs[..i + 1], flags[..i + 1]) == Keep(xs[..i], flags[..i]) + if flags[i] then [xs[i]] else []
  {
    assert xs[..i + 1][..i] == xs[..i] && flags[..i + 1][..i] == flags[..i];
  }

  /** std::remove of the null pointers, then erase. */
  function WithoutNulls(cs: seq<Connection?>): (r: seq<Connection>)
    ensures |r| <= |cs|
  {
    if cs == [] then []
    else
      var n := |cs| - 1;
      var front := WithoutNulls(cs[..n]);
      if cs[n] == null then front else front + [cs[n]]
  }

  ghost predicate AllDifferent<T>(xs: seq<T>) {
    forall i, j :: 0 <= i < j < |xs| ==> xs[i] != xs[j]
  }

  /** Nulling the elements without flag and erasing the nulls keeps the flagged ones. */
  lemma {:induction false} EraseKeeps(before: seq<Connection>, after: seq<Connection?>, flags: seq<bool>)
    requires |before| == |after| == |flags|
    requires forall k :: 0 <= k < |before| ==> after[k] == if flags[k] then before[k] else null
    ensures WithoutNulls(after) == Keep(before, flags)
  {
    if before != [] {
      var n := |before| - 1;
      EraseKeeps(before[..n], after[..n], flags[..n]);
    }
  }

  lemma {:induction false} KeepAll<T>(xs: seq<T>, flags: seq<bool>)
    requires |flags| == |xs| && forall k :: 0 <= k < |xs| ==> flags[k]
    ensures Keep(xs, flags) == xs
  {
    if xs != [] {
      KeepAll(xs[..|xs| - 1], flags[..|xs| - 1]);
    }
  }

  /** m_nIDCounter++ in 32 bits. */
  function NextId(id: uint32): uint32 {
    (id + 1) % 0x1_0000_0000
  }

  /** A string literal as pushed into a message: its characters and the terminating zero. */
  function DenialText(): (text: seq<byte>) {
    var literal := "Max Clients connected";
    seq(|literal|, k requires 0 <= k < |literal| => literal[k] as int % 256) + [0]
  }

  /** The denial by number and bytes. */
  lemma DenialContents()
    ensures var m := Push(Msg(SERVER_DENIAL, 0, []), DenialText());
            && m.id == 7 && |m.body| == 22 && m.size == 22 && m.body[21] == 0
            && forall k :: 0 <= k < 21 ==> m.body[k] == "Max Clients connected"[k] as int
  {
  }

  class ServerInterface {
    const mapsCount: nat                    // m_nMapsCount of the application server
    var connections: seq<Connection?>       // m_deqConnections
    var idCounter: uint32
    ghost var reported: seq<Connection>     // on_client_disconnect calls, in order

    constructor (mapsCount: nat)
      ensures Valid() && connections == [] && idCounter == 10000 && this.mapsCount == mapsCount
    {
      this.mapsCount, connections, idCounter, reported := mapsCount, [], 10000, [];
    }

    /** The accept handler with on_client_connect: a newcomer is approved while there is a map left for it; it is
        sent the acceptance, put at the end of the deque and given the next id. A denied one is dropped (null) after
        the denial has been posted for it. */
    method Accept(now: uint64) returns (client: Connection?, denial: Option<Msg>)
      requires Valid()
      modifies this
      ensures Valid()
      ensures client != null <==> |old(connections)| < mapsCount
      ensures if client != null then
                && fresh(client) && connections == old(connections) + [client]
                && client.State() == ServerInit(now, [Msg(SERVER_ACCEPT, 0, [])])
                && client.uid == old(idCounter) && idCounter == NextId(old(idCounter))
                && denial == None
              else
                && connections == old(connections) && idCounter == old(idCounter)
                && denial == Some(Push(Msg(SERVER_DENIAL, 0, []), DenialText()))
      ensures reported == old(reported)
    {
      client, denial := null, None;
      if |connections| < mapsCount {
        client := new Connection.ForServer(now, idCounter, [Msg(SERVER_ACCEPT, 0, [])]);
        idCounter := NextId(idCounter);
        connections := connections + [client];
      } else {
        var msg := new MessageBuffer(SERVER_DENIAL);
        msg.PushValue(DenialText());
        denial := Some(Msg(msg.id, msg.size, msg.body));
      }
    }

    /** Outside message_all_clients the deque holds no null and no connection twice. */
    ghost predicate Valid()
      reads this
    {
      && (forall k :: 0 <= k < |connections| ==> connections[k] != null)
      && AllDifferent(connections)
    }

    /** Which of the connections are open. */
    ghost function OpenFlags(cs: seq<Connection>): (flags: seq<bool>)
      reads cs
      ensures |flags| == |cs| && forall k :: 0 <= k < |cs| ==> flags[k] == cs[k].open
    {
      seq(|cs|, k requires 0 <= k < |cs| reads cs => cs[k].open)
    }

    /** What the broadcast does to one connection. */
    ghost function Visited(state: Endpoint, ignored: bool, msg: Msg): Endpoint {
      if state.open && !ignored then Next(state, Post(msg), []) else state
    }

    /** One message posted, and nothing else changed, for an open client that is not ignored; no change for any
        other. */
    lemma VisitedMeans(msg: Msg)
      ensures forall e: Endpoint, ignored: bool ::
                Visited(e, ignored, msg)
                == if e.open && !ignored then
                     e.(out := e.out.(pending := e.out.pending + [msg], posted := e.out.posted + [msg]))
                   else e
    {
    }

    /** The loop body of message_all_clients for the client at position i. */
    method VisitClient(i: nat, client: Connection, msg: Msg, ignored: Connection?) returns (dropped: bool)
      requires i < |connections| && connections[i] == client
      modifies this, client
      ensures dropped == !old(client.State()).open
      ensures connections == if dropped then old(connections)[i := null] else old(connections)
      ensures reported == if dropped then old(reported) + [client] else old(reported)
      ensures client.State() == Visited(old(client.State()), client == ignored, msg)
    {
      dropped := !client.open;
      if client.open {
        if client != ignored {
          client.Send(msg);
        }
      } else {
        reported := reported + [client];
        connections := connections[i := null];
      }
    }

    /** The loop of message_all_clients: every client is visited once, in order. */
    method VisitAll(msg: Msg, ignored: Connection?, clients: seq<Connection>) returns (invalidClientExists: bool)
      requires clients == connections && AllDifferent(clients)
      modifies this, clients
      ensures Nulled(clients, old(OpenFlags(clients)))
      ensures invalidClientExists || forall k :: 0 <= k < |clients| ==> old(OpenFlags(clients))[k]
      ensures reported == old(reported) + Keep(clients, Flip(old(OpenFlags(clients))))
      ensures forall k :: 0 <= k < |clients| ==>
                clients[k].State() == Visited(old(States(clients))[k], clients[k] == ignored, msg)
    {
      hide Visited, Connection.State, Keep, OpenFlags, States, Flip;
      NothingKept(clients, Flip(OpenFlags(clients)));
      invalidClientExists := false;
      ghost var flags, states := OpenFlags(clients), States(clients);
      for i := 0 to |clients|
        invariant |connections| == |clients|
        invariant forall k :: i <= k < |clients| ==> connections[k] == clients[k] && clients[k].State() == states[k]
        invariant forall k :: 0 <= k < i ==>
                    && connections[k] == (if flags[k] then clients[k] else null)
                    && clients[k].State() == Visited(states[k], clients[k] == ignored, msg)
        invariant invalidClientExists || forall k :: 0 <= k < i ==> flags[k]
        invariant reported == old(reported) + Keep(clients[..i], Flip(flags)[..i])
      {
        KeepNext(clients, Flip(flags), i);
        var dropped := VisitClient(i, clients[i], msg, ignored);
        invalidClientExists := invalidClientExists || dropped;
      }
      assert clients[..|clients|] == clients && Flip(flags)[..|clients|] == Flip(flags);
    }

    /** The deque while closed clients are nulled but not erased yet. */
    ghost predicate Nulled(clients: seq<Connection>, flags: seq<bool>)
      requires |flags| == |clients|
      reads this
    {
      && |connections| == |clients|
      && forall k :: 0 <= k < |clients| ==> connections[k] == if flags[k] then clients[k] else null
    }

    /** message_all_clients: the deque keeps exactly its open connections in order; each of them but the ignored one
        has the message posted once; each of the others is reported once, in order, and left alone. */
    method MessageAllClients(msg: Msg, ignored: Connection?, clients: seq<Connection>)
      requires Valid() && clients == connections
      modifies this, clients
      ensures Valid()
      ensures connections == Keep(clients, old(OpenFlags(clients)))
      ensures reported == old(reported) + Keep(clients, Flip(old(OpenFlags(clients))))
      ensures forall k :: 0 <= k < |clients| ==>
                clients[k].State() == Visited(old(States(clients))[k], clients[k] == ignored, msg)
      ensures forall k :: 0 <= k < |clients| ==>
                var before, after := old(States(clients))[k], clients[k].State();
                if before.open && clients[k] != ignored then
                  after == before.(out := before.out.(pending := before.out.pending + [msg],
                                                      posted := before.out.posted + [msg]))
                else after == before
    {
      VisitedMeans(msg);
      hide Visited, Connection.State;
      ghost var flags := OpenFlags(clients);
      assert AllDifferent(clients);
      var invalidClientExists := VisitAll(msg, ignored, clients);
      if invalidClientExists {
        EraseKeeps(clients, connections, flags);
        connections := WithoutNulls(connections);
      } else {
        KeepAll(clients, flags);
        assert connections == clients;
      }
      KeepDifferent(clients, flags);
    }

    ghost function States(cs: seq<Connection>): (states: seq<Endpoint>)
      reads cs
      ensures |states| == |cs|
      ensures forall k :: 0 <= k < |cs| ==> states[k] == cs[k].State() && states[k].open == cs[k].open
    {
      seq(|cs|, k requires 0 <= k < |cs| reads cs => cs[k].State())
    }
  }

  lemma {:induction false} KeepDifferent<T>(xs: seq<T>, flags: seq<bool>)
    requires |flags| == |xs| && AllDifferent(xs)
    ensures AllDifferent(Keep(xs, flags))
  {
    if xs != [] {
      var n := |xs| - 1;
      KeepDifferent(xs[..n], flags[..n]);
      KeepExact(xs[..n], flags[..n]);
      var kept := Keep(xs[..n], flags[..n]);
      assert forall i :: 0 <= i < |kept| ==> kept[i] in kept;
    }
  }
}
