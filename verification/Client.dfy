/** The client of client/src/Client.cpp: the bootstrap conversation that m_start processes message by message. */
module Clients {
  import opened Bytes
  import opened Vectors
  import opened Options
  import opened Params
  import opened Messages
  import opened Grids
  import opened Maps

  /** The client's state while it starts up. The four flags start false. A fault stands for what the code does not
      guard against: reading past a message's body, a missing map, a position outside the map's index. */
  datatype App = App(
    gotConsole: bool,
    gotMap: bool,
    gotEntitiesSize: bool,
    gotEntities: bool,
    layout: WinConsoleLayout,        // the layout the console was created with
    mapConfig: Option<MapConfig>,    // m_map, by the configuration it was made with
    grid: Grid,                      // its occupancy index
    count: nat,                      // m_nentities_size
    buffer: seq<Entity>,             // m_ent_buffer
    entities: seq<Entity>,           // m_entities
    started: bool,                   // M_STARTUP_OKAY
    fault: bool,
    processed: seq<byte>)            // history: the ids handled so far, in order

  const BLANK_ENTITY: Entity := Entity(0, 0, 0, 0, 0, 0, 0)

  /** The console the constructor creates, nothing received yet. */
  const APP_INIT: App :=
    App(false, false, false, false, WinConsoleLayout(0, 0, 60, 30, 8, 16), None, [], 0, [], [], false, false, [])

  /** The entities at the end of a message's body. */
  function PulledEntities(m: Msg, count: nat): (es: seq<Entity>)
    requires ENTITY_WIDTH * count <= |m.body|
    ensures |es| == count
  {
    var images := Chop(Top(m, ENTITY_WIDTH * count), ENTITY_WIDTH, count);
    ChopWide(Top(m, ENTITY_WIDTH * count), ENTITY_WIDTH, count);
    DecodeEntities(images)
  }

  lemma {:induction false} ChopWide(s: seq<byte>, width: nat, count: nat)
    requires |s| == width * count
    ensures AllWide(Chop(s, width, count), width)
  {
    if count > 0 {
      assert width * count == width + width * (count - 1);
      ChopWide(s[width..], width, count - 1);
    }
  }

  function TakeLayout(a: App, m: Msg): App {
    if |m.body| < LAYOUT_WIDTH then a.(fault := true)
    else
      var l := DecodeLayout(Top(m, LAYOUT_WIDTH));
      a.(layout := l.(screenHeight := Low16(l.screenHeight + 5)), gotConsole := true)
  }

  function TakeMap(a: App, m: Msg): App {
    if |m.body| < CONFIG_WIDTH then a.(fault := true)
    else
      var c := DecodeConfig(Top(m, CONFIG_WIDTH));
      a.(mapConfig := Some(Clamped(c, a.layout.screenWidth, a.layout.screenHeight)),
         grid := EmptyGrid(c.width * c.height), gotMap := true)
  }

  function TakeCount(a: App, m: Msg): App {
    if |m.body| < COUNT_WIDTH then a.(fault := true)
    else
      var n := FromBytes(Top(m, COUNT_WIDTH));
      a.(count := n, entities := Resized(a.entities, n, BLANK_ENTITY),
         buffer := Resized(a.buffer, n, BLANK_ENTITY), gotEntitiesSize := true)
  }

  /** pull_complex into the buffer, copy into the shared vector. */
  function TakeEntities(a: App, m: Msg): App {
    if ENTITY_WIDTH * a.count > |m.body| then a.(fault := true)
    else
      var es := PulledEntities(m, a.count);
      a.(buffer := es, entities := es)
  }

  /** The Send_Entities case of m_start, which also fills the map's index. */
  function TakeEntitiesIntoMap(a: App, m: Msg): App {
    var b := TakeEntities(a, m);
    if b.fault || b.mapConfig.None? then b.(fault := true)
    else
      match Apply(b.grid, Stores(b.entities, b.mapConfig.value.width))
      case OutOfRange(g) => b.(grid := g, fault := true)
      case Updated(g) =>
        b.(grid := g, gotEntities := true, started := b.gotConsole && b.gotMap && b.gotEntitiesSize)
  }

  /** One pass of m_start's loop over a message it popped. */
  function Process(a: App, m: Msg): App {
    var b := a.(processed := a.processed + [m.id]);
    if m.id == SEND_MAP_CONSOLE_LAYOUT then TakeLayout(b, m)
    else if m.id == SEND_MAP_LAYOUT then TakeMap(b, m)
    else if m.id == SEND_ENTITIES_SIZE then TakeCount(b, m)
    else if m.id == SEND_ENTITIES then TakeEntitiesIntoMap(b, m)
    else b
  }

  function ProcessAll(a: App, ms: seq<Msg>): App {
    if ms == [] then a else Process(ProcessAll(a, ms[..|ms| - 1]), ms[|ms| - 1])
  }

  /** m_start goes on to the next message. */
  predicate Starting(a: App) {
    !a.started && !a.fault
  }

  /** on_message, once the client is running. */
  function OnMessage(a: App, m: Msg): App {
    if m.id == SEND_ENTITIES then TakeEntities(a, m) else a
  }

  /** The client object while it starts up; inbox is its queue of incoming messages. */
  class Client {
    var app: App
    var inbox: seq<Msg>

    constructor ()
      ensures app == APP_INIT && inbox == []
      ensures app.layout == WinConsoleLayout(0, 0, 60, 30, 8, 16) && app.mapConfig == None && app.entities == []
      ensures !app.started && !app.fault && app.processed == []
    {
      app, inbox := APP_INIT, [];
    }

    /** The loop of m_start over the messages that have arrived: it stops at the end of the startup or when the
        queue runs empty, and takes each message once, in order. */
    method StartUp() returns (okay: bool)
      modifies this
      ensures okay == app.started
      ensures exists k :: 0 <= k <= |old(inbox)| && app == ProcessAll(old(app), old(inbox)[..k])
                          && inbox == old(inbox)[k..] && (inbox != [] ==> !Starting(app))
    {
      ghost var start, all, k := app, inbox, 0;
      assert all[..0] == [];
      while Starting(app) && inbox != []
        invariant 0 <= k <= |all| && inbox == all[k..]
        invariant app == ProcessAll(start, all[..k])
        decreases |inbox|
      {
        var m := inbox[0];
        inbox := inbox[1..];
        assert all[..k + 1][..k] == all[..k];
        app := Process(app, m);
        k := k + 1;
      }
      okay := app.started;
    }
  }

  // When the startup is over, whatever messages arrive.

  predicate Seen(ms: seq<Msg>, id: byte) {
    exists k :: 0 <= k < |ms| && ms[k].id == id
  }

  /** Entities have come in after a layout, a map and a count. */
  predicate Complete(ms: seq<Msg>) {
    exists k :: 0 <= k < |ms| && ms[k].id == 12 && Seen(ms[..k], 9) && Seen(ms[..k], 10) && Seen(ms[..k], 11)
  }

  lemma SeenNext(ms: seq<Msg>, m: Msg, id: byte)
    ensures Seen(ms + [m], id) <==> Seen(ms, id) || m.id == id
  {
    var all := ms + [m];
    assert all[|ms|] == m;
    assert forall k :: 0 <= k < |ms| ==> all[k] == ms[k];
    if Seen(ms, id) {
      var k :| 0 <= k < |ms| && ms[k].id == id;
      assert all[k].id == id;
    }
  }

  lemma CompleteNext(ms: seq<Msg>, m: Msg)
    ensures Complete(ms + [m]) <==> Complete(ms) || (m.id == 12 && Seen(ms, 9) && Seen(ms, 10) && Seen(ms, 11))
  {
    hide Seen;
    var all := ms + [m];
    assert all[..|ms|] == ms && all[|ms|] == m;
    assert forall k :: 0 <= k < |ms| ==> all[k] == ms[k] && all[..k] == ms[..k];
    if Complete(ms) {
      var k :| 0 <= k < |ms| && ms[k].id == 12 && Seen(ms[..k], 9) && Seen(ms[..k], 10) && Seen(ms[..k], 11);
      assert all[k].id == 12 && all[..k] == ms[..k];
    }
  }

  lemma CompleteSeen(ms: seq<Msg>)
    ensures Complete(ms) ==> Seen(ms, 9) && Seen(ms, 10) && Seen(ms, 11)
  {
    if k :| 0 <= k < |ms| && ms[k].id == 12 && Seen(ms[..k], 9) && Seen(ms[..k], 10) && Seen(ms[..k], 11) {
      SeenBefore(ms, k, 9);
      SeenBefore(ms, k, 10);
      SeenBefore(ms, k, 11);
    }
  }

  lemma SeenBefore(ms: seq<Msg>, k: nat, id: byte)
    requires k <= |ms| && Seen(ms[..k], id)
    ensures Seen(ms, id)
  {
    var j :| 0 <= j < k && ms[..k][j].id == id;
    assert ms[j].id == id;
  }

  /** The flags say what has been seen. */
  predicate FlagsRight(a: App, ms: seq<Msg>) {
    !a.fault ==>
      && (a.gotConsole <==> Seen(ms, 9))
      && (a.gotMap <==> Seen(ms, 10))
      && (a.gotEntitiesSize <==> Seen(ms, 11))
      && (a.started <==> Complete(ms))
  }

  /** A fault is never forgotten. */
  lemma FaultStays(a: App, m: Msg)
    requires a.fault
    ensures Process(a, m).fault
  {
    hide PulledEntities, DecodeLayout, DecodeConfig, FromBytes, Apply, Stores, Clamped;
  }

  lemma FlagsStep(a: App, ms: seq<Msg>, m: Msg)
    requires FlagsRight(a, ms)
    ensures FlagsRight(Process(a, m), ms + [m])
  {
    hide PulledEntities, DecodeLayout, DecodeConfig, FromBytes, Apply, Stores, Clamped, Seen, Complete;
    SeenNext(ms, m, 9);
    SeenNext(ms, m, 10);
    SeenNext(ms, m, 11);
    CompleteNext(ms, m);
    CompleteSeen(ms);
    if a.fault {
      FaultStays(a, m);
    }
  }

  /** Over any series of messages a client without fault has started exactly if entities came in after a layout, a
      map and a count. */
  lemma {:induction false} StartedIff(ms: seq<Msg>)
    ensures FlagsRight(ProcessAll(APP_INIT, ms), ms)
  {
    if ms != [] {
      hide Process, FlagsRight;
      var n := |ms| - 1;
      StartedIff(ms[..n]);
      FlagsStep(ProcessAll(APP_INIT, ms[..n]), ms[..n], ms[n]);
      assert ms[..n] + [ms[n]] == ms;
    }
  }

  /** Messages of other kinds change nothing, before the startup is over and after. */
  lemma OthersIgnored(a: App, m: Msg)
    ensures m.id != 9 && m.id != 10 && m.id != 11 && m.id != 12 ==>
              Process(a, m) == a.(processed := a.processed + [m.id])
    ensures m.id != 12 ==> OnMessage(a, m) == a
  {
  }

  // Each message of the conversation, as the client takes it.

  /** A value pushed last is what the reader sees on top. */
  lemma TopOfPush(m: Msg, data: seq<byte>)
    ensures Top(Push(m, data), |data|) == data
  {
  }

  /** The entities pushed last come back exactly, whatever lies below them in the body. */
  lemma EntitiesComeBack(m: Msg, es: seq<Entity>)
    ensures var p := Push(m, Flatten(EncodeEntities(es)));
            ENTITY_WIDTH * |es| <= |p.body| && PulledEntities(p, |es|) == es
  {
    hide DecodeEntities, EncodeEntity, Chop, Flatten, DecodeEntity;
    var images := EncodeEntities(es);
    FlattenLength(images, ENTITY_WIDTH);
    TopOfPush(m, Flatten(images));
    ChopFlatten(images, ENTITY_WIDTH);
    EntitiesRoundTrip(es);
  }

  /** Of entities pushed last any number up to all can be pulled, and the last ones come back; more are not there. */
  lemma LastEntitiesComeBack(m: Msg, es: seq<Entity>, n: nat)
    requires |m.body| < ENTITY_WIDTH
    ensures var p := Push(m, Flatten(EncodeEntities(es)));
            && (ENTITY_WIDTH * n <= |p.body| <==> n <= |es|)
            && (n <= |es| ==> PulledEntities(p, n) == es[|es| - n..])
  {
    hide DecodeEntities, EncodeEntity, Chop, Flatten, PulledEntities;
    var p := Push(m, Flatten(EncodeEntities(es)));
    FlattenLength(EncodeEntities(es), ENTITY_WIDTH);
    if n <= |es| {
      var front, last := es[..|es| - n], es[|es| - n..];
      assert EncodeEntities(es) == EncodeEntities(front) + EncodeEntities(last);
      FlattenConcat(EncodeEntities(front), EncodeEntities(last));
      var q := Push(m, Flatten(EncodeEntities(front)));
      EntitiesComeBack(q, last);
      assert Push(q, Flatten(EncodeEntities(last))).body == p.body;
      SameBodyPulls(Push(q, Flatten(EncodeEntities(last))), p, n);
    }
  }

  lemma SameBodyPulls(a: Msg, b: Msg, n: nat)
    requires a.body == b.body && ENTITY_WIDTH * n <= |a.body|
    ensures PulledEntities(a, n) == PulledEntities(b, n)
  {
  }

  /** on_message replaces the client's entities by those at the end of the message, if it carries that many. */
  lemma RefreshExact(a: App, m: Msg, es: seq<Entity>)
    requires m.id == SEND_ENTITIES && a.count == |es|
    ensures OnMessage(a, Push(m, Flatten(EncodeEntities(es)))) == a.(buffer := es, entities := es)
  {
    hide PulledEntities;
    EntitiesComeBack(m, es);
  }
}
