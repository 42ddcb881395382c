/** The server's half of the bootstrap conversation, on_client_validated of server/src/Server.cpp. */
module Greetings {
  import opened Bytes
  import opened Params
  import opened Messages
  import opened Framing
  import opened Endpoints
  import opened Connections

  /** The console layout a map is constructed with. */
  function LayoutOf(c: MapConfig): WinConsoleLayout {
    WinConsoleLayout(0, 0, c.width, c.height, 8, 16)
  }

  function LayoutMessage(c: MapConfig): Msg {
    Push(Msg(SEND_MAP_CONSOLE_LAYOUT, 0, []), EncodeLayout(LayoutOf(c)))
  }

  function ConfigMessage(c: MapConfig): Msg {
    Push(Msg(SEND_MAP_LAYOUT, 0, []), EncodeConfig(c))
  }

  function CountMessage(counted: uint64): Msg {
    Push(Msg(SEND_ENTITIES_SIZE, 0, []), ToBytes(counted, COUNT_WIDTH))
  }

  /** The same message object, not cleared: the count stays in front of the entities. */
  function EntitiesMessage(counted: uint64, es: seq<Entity>): Msg {
    Push(CountMessage(counted).(id := SEND_ENTITIES), Flatten(EncodeEntities(es)))
  }

  /** The four messages for a map with this configuration. Between the count and the entities the environment may have
      added to the vector. */
  function Greeting(c: MapConfig, counted: uint64, es: seq<Entity>): (ms: seq<Msg>)
    ensures |ms| == 4
  {
    [LayoutMessage(c), ConfigMessage(c), CountMessage(counted), EntitiesMessage(counted, es)]
  }

  /** The entity message fits a 32-bit size. */
  predicate Fits(es: seq<Entity>) {
    COUNT_WIDTH + ENTITY_WIDTH * |es| < 0x1_0000_0000
  }

  /** Every message of the greeting announces its body exactly when the entities fit. */
  lemma GreetingWellFramedIff(c: MapConfig, counted: uint64, es: seq<Entity>)
    ensures AllWellFramed(Greeting(c, counted, es)) <==> Fits(es)
  {
    hide EncodeEntities, EncodeLayout, EncodeConfig, Flatten, ToBytes;
    FlattenLength(EncodeEntities(es), ENTITY_WIDTH);
    var ms := Greeting(c, counted, es);
    assert |EntitiesMessage(counted, es).body| == COUNT_WIDTH + ENTITY_WIDTH * |es|;
    assert WellFramed(ms[0]) && WellFramed(ms[1]) && WellFramed(ms[2]);
    assert WellFramed(ms[3]) <==> Fits(es);
  }

  /** What the four messages are, ids by number and bodies byte by byte: the layout of a console of the map's size at
      the origin in the default font of 8 by 16, the map's configuration, the count, and the count again in front of
      the entities. */
  lemma GreetingContents(c: MapConfig, counted: uint64, es: seq<Entity>)
    ensures var ms := Greeting(c, counted, es);
            && ms[0].id == 9
            && ms[0].body == [0, 0, 0, 0, c.width % 256, c.width / 256, c.height % 256, c.height / 256, 8, 0, 16, 0]
            && ms[1].id == 10 && ms[1].body == EncodeConfig(c)
            && ms[2].id == 11 && ms[2].body == ToBytes(counted, 8)
            && ms[3].id == 12 && ms[3].body == ToBytes(counted, 8) + Flatten(EncodeEntities(es))
  {
    hide EncodeConfig, EncodeEntities, Flatten, ToBytes;
    LayoutImage(LayoutOf(c));
  }

  /** on_client_validated: the client is greeted with the map whose number is one less than there are connections. With
      no such map yet, at_get_map throws before anything is sent. counts holds the lengths of the vectors shared with
      the maps at the moment of counting, incoming their contents at the moment of copying. */
  method OnClientValidated(client: Connection, connections: nat, maps: seq<MapConfig>, counts: seq<uint64>,
                           incoming: seq<seq<Entity>>)
    returns (thrown: bool)
    requires |maps| <= |incoming| == |counts|
    modifies client
    ensures thrown <==> !(0 < connections <= |maps|)
    ensures client.State()
         == if thrown then old(client.State())
            else
              var k := connections - 1;
              old(client.State()).(out := Queue(old(client.State()).out, Greeting(maps[k], counts[k], incoming[k])))
  {
    thrown := connections == 0 || connections - 1 >= |maps|;
    if !thrown {
      Greet(client, maps[connections - 1], counts[connections - 1], incoming[connections - 1]);
    }
  }

  /** The four messages, built and sent. */
  method Greet(client: Connection, config: MapConfig, counted: uint64, entities: seq<Entity>)
    modifies client
    ensures client.State()
         == old(client.State()).(out := Queue(old(client.State()).out, Greeting(config, counted, entities)))
  {
    hide EncodeLayout, EncodeConfig, EncodeEntity, Flatten, ToBytes, Queue;
    ghost var before := client.State();
    // send window
    var msg := new MessageBuffer(SEND_MAP_CONSOLE_LAYOUT);
    msg.PushValue(EncodeLayout(LayoutOf(config)));
    client.Send(Msg(msg.id, msg.size, msg.body));
    // send map
    var mapMsg := new MessageBuffer(SEND_MAP_LAYOUT);
    mapMsg.PushValue(EncodeConfig(config));
    client.Send(Msg(mapMsg.id, mapMsg.size, mapMsg.body));
    // send entities
    var entMsg := new MessageBuffer(SEND_ENTITIES_SIZE);
    entMsg.PushValue(ToBytes(counted, COUNT_WIDTH));
    client.Send(Msg(entMsg.id, entMsg.size, entMsg.body));
    entMsg.id := SEND_ENTITIES;
    entMsg.PushBackComplex(EncodeEntities(entities), ENTITY_WIDTH);
    client.Send(Msg(entMsg.id, entMsg.size, entMsg.body));
    QueueFour(before.out, LayoutMessage(config), ConfigMessage(config), CountMessage(counted),
              EntitiesMessage(counted, entities));
  }

  lemma QueueFour(w: Writer, a: Msg, b: Msg, c: Msg, d: Msg)
    ensures Queue(Queue(Queue(Queue(w, [a]), [b]), [c]), [d]) == Queue(w, [a, b, c, d])
  {
    assert w.pending + [a] + [b] + [c] + [d] == w.pending + [a, b, c, d];
    assert w.posted + [a] + [b] + [c] + [d] == w.posted + [a, b, c, d];
  }
}
