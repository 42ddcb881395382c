/** The bootstrap conversation end to end: the server's greeting, the two connections and the client's startup loop,
    under every interleaving. */
module Bootstrap {
  import opened Bytes
  import opened Vectors
  import opened Options
  import opened Params
  import opened Messages
  import opened Framing
  import opened Endpoints
  import opened OpenSystem
  import opened Network
  import opened Grids
  import opened Maps
  import opened Clients
  import opened Greetings
  import opened Environments

  /** What the server holds for the client's map: its configuration, the length of its entity vector when it is counted,
      and the vector when it is copied, which may have grown since. */
  datatype Scene = Scene(config: MapConfig, counted: uint64, entities: seq<Entity>)

  /** Few enough entities for one message: the only demand on a scene. */
  predicate ValidScene(s: Scene) {
    Fits(s.entities)
  }

  /** As many entities from the end as were counted: what the client pulls. */
  function Shown(s: Scene): seq<Entity> {
    if s.counted <= |s.entities| then s.entities[|s.entities| - s.counted..] else []
  }

  /** That is the server's whole vector exactly when its length did not change. */
  lemma ShownIsAllIff(s: Scene)
    requires s.counted <= |s.entities|
    ensures Shown(s) == s.entities <==> s.counted == |s.entities|
  {
  }

  /** The message holds as many entities as were counted, and their cells, old and new, lie inside the map's index;
      otherwise the client reads past the body, or the update of its map throws. */
  predicate Showable(s: Scene) {
    && s.counted <= |s.entities|
    && InRange(Stores(Shown(s), s.config.width), s.config.width * s.config.height)
  }

  /** The layout as the client keeps it, five rows higher in 16 bits. */
  function ClientLayout(c: MapConfig): WinConsoleLayout {
    LayoutOf(c).(screenHeight := Low16(c.height + 5))
  }

  /** The map's configuration once the client's map has clamped its offsets to the client's console. */
  function ClientConfig(c: MapConfig): MapConfig {
    Clamped(c, c.width, Low16(c.height + 5))
  }

  /** What becomes of the map's empty index. */
  function SceneIndex(s: Scene): Outcome {
    Apply(EmptyGrid(s.config.width * s.config.height), Stores(Shown(s), s.config.width))
  }

  const WELCOME: Msg := Msg(SERVER_ACCEPT, 0, [])

  function SceneGreeting(s: Scene): seq<Msg> {
    Greeting(s.config, s.counted, s.entities)
  }

  /** The whole conversation: the acceptance, then the greeting. */
  function Conversation(s: Scene): (ms: seq<Msg>)
    ensures |ms| == 5
  {
    [WELCOME] + SceneGreeting(s)
  }

  // What the client makes of the conversation, message by message.

  function Stage(s: Scene, k: nat): App
    requires k <= 5
  {
    var c, layout := s.config, ClientLayout(s.config);
    var config, empty := Some(ClientConfig(c)), EmptyGrid(c.width * c.height);
    if !ValidScene(s) || k == 0 then APP_INIT
    else if k == 1 then APP_INIT.(processed := [SERVER_ACCEPT])
    else if k == 2 then
      APP_INIT.(gotConsole := true, layout := layout, processed := [SERVER_ACCEPT, SEND_MAP_CONSOLE_LAYOUT])
    else if k == 3 then
      APP_INIT.(gotConsole := true, gotMap := true, layout := layout, mapConfig := config, grid := empty,
                processed := [SERVER_ACCEPT, SEND_MAP_CONSOLE_LAYOUT, SEND_MAP_LAYOUT])
    else if k == 4 then
      App(true, true, true, false, layout, config, empty, s.counted, Blanks(s.counted), Blanks(s.counted), false, false,
          [SERVER_ACCEPT, SEND_MAP_CONSOLE_LAYOUT, SEND_MAP_LAYOUT, SEND_ENTITIES_SIZE])
    else if s.counted > |s.entities| then
      App(true, true, true, false, layout, config, empty, s.counted, Blanks(s.counted), Blanks(s.counted), false, true,
          [SERVER_ACCEPT, SEND_MAP_CONSOLE_LAYOUT, SEND_MAP_LAYOUT, SEND_ENTITIES_SIZE, SEND_ENTITIES])
    else
      var okay := SceneIndex(s).Updated?;
      App(true, true, true, okay, layout, config, SceneIndex(s).grid, s.counted, Shown(s), Shown(s), okay, !okay,
          [SERVER_ACCEPT, SEND_MAP_CONSOLE_LAYOUT, SEND_MAP_LAYOUT, SEND_ENTITIES_SIZE, SEND_ENTITIES])
  }

  function Blanks(n: nat): seq<Entity> {
    seq(n, _ => BLANK_ENTITY)
  }

  lemma StageLayout(s: Scene)
    requires ValidScene(s)
    ensures Process(Stage(s, 1), LayoutMessage(s.config)) == Stage(s, 2)
  {
    hide EncodeLayout, DecodeLayout;
    TopOfPush(Msg(SEND_MAP_CONSOLE_LAYOUT, 0, []), EncodeLayout(LayoutOf(s.config)));
    LayoutRoundTrip(LayoutOf(s.config));
  }

  lemma StageConfig(s: Scene)
    requires ValidScene(s)
    ensures Process(Stage(s, 2), ConfigMessage(s.config)) == Stage(s, 3)
  {
    hide EncodeConfig, DecodeConfig;
    TopOfPush(Msg(SEND_MAP_LAYOUT, 0, []), EncodeConfig(s.config));
    ConfigRoundTrip(s.config);
  }

  lemma StageCount(s: Scene)
    requires ValidScene(s)
    ensures Process(Stage(s, 3), CountMessage(s.counted)) == Stage(s, 4)
  {
    hide ToBytes, FromBytes, Fits, SceneIndex, ClientConfig, ClientLayout;
    TopOfPush(Msg(SEND_ENTITIES_SIZE, 0, []), ToBytes(s.counted, COUNT_WIDTH));
    assert Pow256(8) == 0x1_0000_0000_0000_0000;
    FromToBytes(s.counted, COUNT_WIDTH);
    assert Resized([], s.counted, BLANK_ENTITY) == Blanks(s.counted);
  }

  lemma StageEntities(s: Scene)
    requires ValidScene(s)
    ensures Process(Stage(s, 4), EntitiesMessage(s.counted, s.entities)) == Stage(s, 5)
  {
    hide PulledEntities, Stores, Flatten, EncodeEntities, Apply, Clamp, ToBytes, Fits;
    LastEntitiesComeBack(CountMessage(s.counted).(id := SEND_ENTITIES), s.entities, s.counted);
  }

  lemma ConversationStages(s: Scene, k: nat)
    requires ValidScene(s) && k <= 5
    ensures ProcessAll(APP_INIT, Conversation(s)[..k]) == Stage(s, k)
  {
    hide Stage, Process, LayoutMessage, ConfigMessage, CountMessage, EntitiesMessage, ValidScene;
    if k == 0 {
      StageZero(s);
    } else {
      ConversationStages(s, k - 1);
      assert Conversation(s)[..k][..k - 1] == Conversation(s)[..k - 1];
      StageNext(s, k);
    }
  }

  lemma StageZero(s: Scene)
    ensures Stage(s, 0) == APP_INIT
    ensures ValidScene(s) ==> Process(Stage(s, 0), WELCOME) == Stage(s, 1)
  {
    hide Fits, SceneIndex;
  }

  lemma StageNext(s: Scene, k: nat)
    requires ValidScene(s) && 0 < k <= 5
    ensures Process(Stage(s, k - 1), Conversation(s)[k - 1]) == Stage(s, k)
  {
    hide Stage, Process, LayoutMessage, ConfigMessage, CountMessage, EntitiesMessage, ValidScene;
    if k == 1 { StageZero(s); }
    if k == 2 { StageLayout(s); }
    if k == 3 { StageConfig(s); }
    if k == 4 { StageCount(s); }
    if k == 5 { StageEntities(s); }
  }

  // The running system.

  /** The network, the client's startup, and how many delivered messages that has taken. */
  datatype Sys = Sys(net: Net, app: App, taken: nat)

  datatype SysAction = NetStep(a: NetAction) | AppStep

  function SysInit(challenge: uint64): Sys {
    Sys(NetInit(challenge, [WELCOME]), APP_INIT, 0)
  }

  /** The application server sends nothing to a client it has not validated, apart from the acceptance. */
  predicate SysEnabled(s: Sys, a: SysAction) {
    match a
    case NetStep(na) => NetEnabled(s.net, na) && (na.ByServer? && na.act.Post? ==> s.net.server.validations > 0)
    case AppStep => Starting(s.app) && s.net.client.open && s.taken < |s.net.client.inp.delivered|
  }

  function SysNext(s: Sys, a: SysAction, scene: Scene): Sys
    requires SysEnabled(s, a)
  {
    match a
    case NetStep(na) => s.(net := NetNext(s.net, na, SceneGreeting(scene)))
    case AppStep => s.(app := Process(s.app, s.net.client.inp.delivered[s.taken]), taken := s.taken + 1)
  }

  /** The server has posted the acceptance, and once it validated the client the greeting right after it. */
  predicate PostedInOrder(server: Endpoint, scene: Scene) {
    if server.validations == 0 then server.out.posted == [WELCOME] else Conversation(scene) <= server.out.posted
  }

  predicate SysState(s: Sys, scene: Scene) {
    && NetState(s.net)
    && PostedInOrder(s.net.server, scene)
    && s.taken <= |s.net.client.inp.delivered| && s.taken <= 5
    && s.app == Stage(scene, s.taken)
  }

  lemma ValidationsCount(e: Endpoint, act: Action, greeting: seq<Msg>)
    requires Enabled(e, act)
    ensures var f := Next(e, act, greeting);
            if act.ReadDone? && e.server && e.inp.reading == ReadingValidation && WordOf(e.inp.got) == e.handshakeCheck
            then f.validations == e.validations + 1
            else f.validations == e.validations
  {
    hide HeaderBytes, WordOf, WordBytes, HeaderRead, BodyRead, RunPostedOf, FrameWrittenOf, Emit, EmitWord;
  }

  lemma ServerStepKeepsOrder(e: Endpoint, act: Action, scene: Scene)
    requires EndpointState(e) && e.server && Enabled(e, act) && PostedInOrder(e, scene)
    requires act.Post? ==> e.validations > 0
    ensures PostedInOrder(Next(e, act, SceneGreeting(scene)), scene)
  {
    hide FreeState, WriterStream, Ahead, Next, Enabled, SceneGreeting, WordOf;
    ValidationsCount(e, act, SceneGreeting(scene));
    StepPosts(e, act, SceneGreeting(scene));
    if act.ReadDone? && e.inp.reading == ReadingValidation {
      NotYetValidated(e);
    }
  }

  lemma NotYetValidated(e: Endpoint)
    requires FreeState(e) && e.inp.reading == ReadingValidation
    ensures e.validations == 0
  {
    hide WriterStream, Taken, HeaderSize, WordOf;
  }

  /** A step only appends to what has been delivered. */
  lemma DeliveredGrows(e: Endpoint, act: Action, greeting: seq<Msg>)
    requires Enabled(e, act)
    ensures e.inp.delivered <= Next(e, act, greeting).inp.delivered
  {
    hide HeaderBytes, HeaderSize, WordOf, WordBytes, Resized, RunPostedOf, FrameWrittenOf, Emit, EmitWord;
  }

  lemma NetDeliveredGrows(n: Net, a: NetAction, greeting: seq<Msg>)
    requires NetEnabled(n, a)
    ensures n.client.inp.delivered <= NetNext(n, a, greeting).client.inp.delivered
  {
    hide Enabled, Next, Sent, Remaining;
    match a
    case ByServer(_) =>
    case ByClient(act) => DeliveredGrows(n.client, act, []);
  }

  lemma ConversationWellFramed(scene: Scene)
    requires ValidScene(scene)
    ensures AllWellFramed(SceneGreeting(scene)) && AllWellFramed(Conversation(scene)) && AllWellFramed([WELCOME])
    ensures BodilessFirst(Conversation(scene))
  {
    hide Fits, EncodeLayout, EncodeConfig, EncodeEntities, Flatten, ToBytes;
    GreetingWellFramedIff(scene.config, scene.counted, scene.entities);
    var ms := Conversation(scene);
    assert forall k :: 0 < k < 5 ==> ms[k] == SceneGreeting(scene)[k - 1];
    assert |ms[1].body| == 12 && |ms[2].body| == 16 && |ms[3].body| == 8 && |ms[4].body| >= 8;
    forall i | 0 < i < 5 ensures AllBodies(ms[i..]) {
      assert forall k :: 0 <= k < |ms[i..]| ==> ms[i..][k] == ms[i + k];
    }
  }

  /** What the client has been handed is the beginning of the conversation, message for message. */
  lemma HandedConversation(s: Sys, scene: Scene)
    requires SysState(s, scene) && ValidScene(scene)
    ensures var k := |s.net.client.inp.delivered|;
            var d := s.net.client.inp.delivered;
            && (k <= 5 ==> d == Conversation(scene)[..k])
            && (k > 5 ==> d[..5] == Conversation(scene))
  {
    hide FreeState, WriterStream, Ahead, Channel, Stage, Received, StaleBody, Conversation, BodilessFirst, AllBodies,
         ValidScene;
    var n := s.net;
    Delivery(n.server, n.client, n.down);
    var posted, d := n.server.out.posted, n.client.inp.delivered;
    var k := |d|;
    ConversationWellFramed(scene);
    var j := if k <= 5 then k else 5;
    PostedPrefix(n.server, scene, j);
    assert posted[..k] == posted[..j] + posted[j..k];
    ReceivedConcat([], posted[..j], posted[j..k]);
    assert d[..j] == Received([], posted[..j]);
    FirstOfConversation(scene, j);
  }

  lemma PostedPrefix(e: Endpoint, scene: Scene, j: nat)
    requires PostedInOrder(e, scene) && j <= |e.out.posted| && j <= 5
    ensures e.out.posted[..j] == Conversation(scene)[..j]
  {
    hide SceneGreeting;
    if e.validations != 0 {
      assert e.out.posted[..j] == e.out.posted[..5][..j];
    }
  }

  lemma FirstOfConversation(scene: Scene, j: nat)
    requires ValidScene(scene) && j <= 5
    ensures Received([], Conversation(scene)[..j]) == Conversation(scene)[..j]
  {
    hide ValidScene, Received, Conversation, StaleBody, BodilessFirst;
    var ms := Conversation(scene);
    ConversationWellFramed(scene);
    ReceivedExactIff(ms);
    ReceivedConcat([], ms[..j], ms[j..]);
    assert ms == ms[..j] + ms[j..];
    assert Received([], ms)[..j] == Received([], ms[..j]);
  }

  lemma SysInitState(challenge: uint64, scene: Scene)
    ensures SysState(SysInit(challenge), scene)
  {
    hide FreeState, WriterStream, Ahead, Stage;
    NetInitState(challenge, [WELCOME]);
    StageZero(scene);
  }

  lemma AppStepKeepsState(s: Sys, scene: Scene)
    requires SysState(s, scene) && SysEnabled(s, AppStep) && ValidScene(scene)
    ensures SysState(SysNext(s, AppStep, scene), scene)
  {
    hide NetState, Stage, Process, Conversation, ValidScene;
    HandedConversation(s, scene);
    var d := s.net.client.inp.delivered;
    if s.taken == 5 {
      StageFive(scene);
    }
    assert d[s.taken] == Conversation(scene)[s.taken] by {
      if |d| > 5 {
        assert d[s.taken] == d[..5][s.taken];
      }
    }
    StageNext(scene, s.taken + 1);
  }

  lemma StageFive(scene: Scene)
    requires ValidScene(scene)
    ensures forall k :: 0 <= k < 5 ==> Starting(Stage(scene, k))
    ensures Stage(scene, 5).started == Showable(scene) && Stage(scene, 5).fault == !Showable(scene)
  {
    hide ValidScene, InRange, Apply, Stores;
    UpdatedIff(EmptyGrid(scene.config.width * scene.config.height), Stores(Shown(scene), scene.config.width));
  }

  lemma NetStepKeepsSys(s: Sys, a: NetAction, scene: Scene)
    requires SysState(s, scene) && SysEnabled(s, NetStep(a)) && ValidScene(scene)
    ensures SysState(SysNext(s, NetStep(a), scene), scene)
  {
    hide FreeState, WriterStream, Ahead, Stage, PostedInOrder, SceneGreeting, Channel, Next, Enabled, Sent, Remaining,
         ValidScene;
    ConversationWellFramed(scene);
    NetStepKeepsState(s.net, a, SceneGreeting(scene));
    NetDeliveredGrows(s.net, a, SceneGreeting(scene));
    match a
    case ByServer(act) => ServerStepKeepsOrder(s.net.server, act, scene);
    case ByClient(_) =>
  }

  // Runs.

  predicate SysRun(s: Sys, acts: seq<SysAction>, scene: Scene)
    decreases |acts|
  {
    acts == [] || (SysEnabled(s, acts[0]) && SysRun(SysNext(s, acts[0], scene), acts[1..], scene))
  }

  function SysAfter(s: Sys, acts: seq<SysAction>, scene: Scene): Sys
    requires SysRun(s, acts, scene)
    decreases |acts|
  {
    if acts == [] then s else SysAfter(SysNext(s, acts[0], scene), acts[1..], scene)
  }

  lemma SysStepKeepsState(s: Sys, a: SysAction, scene: Scene)
    requires SysState(s, scene) && SysEnabled(s, a) && ValidScene(scene)
    ensures SysState(SysNext(s, a, scene), scene)
  {
    hide SysState, ValidScene, NetEnabled;
    match a
    case NetStep(na) => NetStepKeepsSys(s, na, scene);
    case AppStep => AppStepKeepsState(s, scene);
  }

  lemma {:induction false} SysRunKeepsState(s: Sys, acts: seq<SysAction>, scene: Scene)
    requires SysState(s, scene) && SysRun(s, acts, scene) && ValidScene(scene)
    ensures SysState(SysAfter(s, acts, scene), scene)
    decreases |acts|
  {
    hide SysState, SysNext, SysEnabled, ValidScene;
    if acts != [] {
      SysStepKeepsState(s, acts[0], scene);
      SysRunKeepsState(SysNext(s, acts[0], scene), acts[1..], scene);
    }
  }

  /** The client shows the server's scene: it has handled the layout, the map, the count and the entities in that
      order, its entities are the last ones counted of the server's, its map has the server's configuration with the
      offsets its own console allows, and the map's index is the one the server would compute for them. */
  predicate Mirrors(a: App, scene: Scene) {
    && a.processed == [SERVER_ACCEPT, SEND_MAP_CONSOLE_LAYOUT, SEND_MAP_LAYOUT, SEND_ENTITIES_SIZE, SEND_ENTITIES]
    && a.entities == Shown(scene)
    && a.mapConfig == Some(ClientConfig(scene.config))
    && a.grid == SceneIndex(scene).grid
    && a.layout == ClientLayout(scene.config)
  }

  lemma LastStageMirrors(scene: Scene)
    requires ValidScene(scene)
    ensures scene.counted <= |scene.entities| ==> Mirrors(Stage(scene, 5), scene)
    ensures forall k :: 0 <= k < 5 ==> Starting(Stage(scene, k))
    ensures Stage(scene, 5).mapConfig.Some?
  {
    hide Fits, SceneIndex, ClientConfig, ClientLayout;
  }

  /** The client's map starts in column zero, and at most five rows down. */
  lemma ClientConfigExact(c: MapConfig)
    ensures ClientConfig(c) == c.(x := 0, y := if c.y <= 5 && c.height + 5 < 0x1_0000 then c.y else 5)
  {
  }

  /** Bootstrap, over every run: the startup faults only if the scene cannot be shown, and not before there is a map and
      the entities are there, as far as the message holds them; once it is finished the client shows the server's scene,
      and has the server's vector exactly if that did not grow between count and copy. */
  lemma BootstrapCorrect(challenge: uint64, acts: seq<SysAction>, scene: Scene)
    requires ValidScene(scene) && SysRun(SysInit(challenge), acts, scene)
    ensures var a := SysAfter(SysInit(challenge), acts, scene).app;
            && (a.fault ==> !Showable(scene))
            && (a.started ==> Showable(scene) && Mirrors(a, scene))
            && (a.started ==>
                  && a.processed == [6, 9, 10, 11, 12]
                  && a.layout
                     == WinConsoleLayout(0, 0, scene.config.width, (scene.config.height + 5) % 0x1_0000, 8, 16))
            && (a.started ==> (a.entities == scene.entities <==> scene.counted == |scene.entities|))
            && (a.fault || a.started ==>
                  a.mapConfig.Some? && (scene.counted <= |scene.entities| ==> a.entities == Shown(scene)))
  {
    hide NetState, ValidScene, PostedInOrder, Stage, SceneIndex, SysEnabled, SysNext, SysInit, InRange, Stores;
    SysInitState(challenge, scene);
    SysRunKeepsState(SysInit(challenge), acts, scene);
    StageFive(scene);
    LastStageMirrors(scene);
    if scene.counted <= |scene.entities| {
      ShownIsAllIff(scene);
    }
  }

  // Completion: without errors and further sends the startup finishes.

  predicate SysQuiet(a: SysAction) {
    a.NetStep? ==> NetQuiet(a.a)
  }

  function SysWork(s: Sys, scene: Scene): int {
    Work(s.net, SceneGreeting(scene)) + 5 - s.taken
  }

  lemma SysWorkDecreases(s: Sys, a: SysAction, scene: Scene)
    requires SysState(s, scene) && SysEnabled(s, a) && SysQuiet(a)
    ensures SysWork(SysNext(s, a, scene), scene) < SysWork(s, scene)
  {
    hide NetState, Work, NetNext, NetEnabled, Process, Stage, SceneGreeting;
    if a.NetStep? {
      WorkDecreases(s.net, a.a, SceneGreeting(scene));
    }
  }

  /** The step runs no posted send of a client that has not issued its answer. */
  predicate SysPatient(s: Sys, a: SysAction) {
    a.NetStep? ==> Patient(s.net, a.a)
  }

  /** Such steps keep the client's bytes in order, and with them both sockets open. */
  lemma SysStaysInOrder(s: Sys, a: SysAction, scene: Scene)
    requires InOrder(s.net) && SysEnabled(s, a) && SysQuiet(a) && SysPatient(s, a) && ValidScene(scene)
    ensures InOrder(SysNext(s, a, scene).net)
    ensures SysNext(s, a, scene).net.server.open == s.net.server.open
    ensures SysNext(s, a, scene).net.client.open == s.net.client.open
  {
    hide InOrder, Patient, NetQuiet, NetNext, NetEnabled, Process, SceneGreeting, ValidScene, Conversation;
    if a.NetStep? {
      ConversationWellFramed(scene);
      OrderKept(s.net, a.a, SceneGreeting(scene));
      StaysOpen(s.net, a.a, SceneGreeting(scene));
    }
  }

  lemma OrderKept(n: Net, a: NetAction, greeting: seq<Msg>)
    requires InOrder(n) && NetEnabled(n, a) && Patient(n, a) && AllWellFramed(greeting)
    ensures InOrder(NetNext(n, a, greeting))
  {
    hide NetState, NetEnabled, NetNext, WriterStream, Ahead, Patient;
    assert NetState(n);
    NetStepKeepsState(n, a, greeting);
  }

  /** Until the startup is over some step is always possible, and one that keeps the client's bytes in order. */
  lemma SysProgress(s: Sys, scene: Scene) returns (a: SysAction)
    requires SysState(s, scene) && ValidScene(scene)
    requires s.net.server.open && s.net.client.open && Starting(s.app)
    ensures SysEnabled(s, a) && SysQuiet(a) && (InOrder(s.net) ==> SysPatient(s, a))
  {
    hide NetState, InOrder, Patient, Work, NetEnabled, Stage, SceneGreeting, ValidScene, Drained;
    StageFive(scene);
    if s.taken < |s.net.client.inp.delivered| {
      a := AppStep;
    } else {
      if Work(s.net, SceneGreeting(scene)) == 0 {
        DrainedIff(s.net, SceneGreeting(scene));
        AllHanded(s, scene);
      }
      var na := Progress(s.net, SceneGreeting(scene));
      QuietIsNoPost(na);
      a := NetStep(na);
    }
  }

  lemma QuietIsNoPost(a: NetAction)
    ensures NetQuiet(a) ==> !a.act.Post?
  {
  }

  /** Once the network is drained the client has been handed the whole conversation. */
  lemma AllHanded(s: Sys, scene: Scene)
    requires SysState(s, scene) && Drained(s.net) && s.net.server.open
    ensures |s.net.client.inp.delivered| >= 5
  {
    hide FreeState, WriterStream, Ahead, Stage, Conversation, Received, WriterIdle;
    OpenIsValidated(s.net.server);
  }

  /** A server that is open with the handshake behind it has validated its client. */
  lemma OpenIsValidated(e: Endpoint)
    requires FreeState(e) && e.server && e.open && e.inp.framed >= 8
    ensures e.validations == 1
  {
    hide FreeWriter, Taken, HeaderSize, WordOf;
  }

  predicate AllSysQuiet(acts: seq<SysAction>) {
    forall k :: 0 <= k < |acts| ==> SysQuiet(acts[k])
  }

  /** From every state with both sockets open and the client's bytes in order the steps of the system alone bring
      the startup to its end: a client that has started, exactly when the entities fit the map's index, or one that
      has faulted. */
  lemma {:induction false} BootstrapCompletes(s: Sys, scene: Scene) returns (acts: seq<SysAction>)
    requires SysState(s, scene) && ValidScene(scene) && s.net.server.open && s.net.client.open && InOrder(s.net)
    ensures SysRun(s, acts, scene) && AllSysQuiet(acts)
    ensures var a := SysAfter(s, acts, scene).app;
            a.started == Showable(scene) && a.fault == !Showable(scene)
    decreases SysWorkNat(s, scene)
  {
    hide SysState, SysNext, SysEnabled, SysWork, SysQuiet, SysPatient, InOrder, ValidScene, Showable;
    if !Starting(s.app) {
      OverMeans(s, scene);
      acts := [];
    } else {
      var a := SysProgress(s, scene);
      var next := SysNext(s, a, scene);
      SysWorkDecreases(s, a, scene);
      SysStepKeepsState(s, a, scene);
      SysStaysInOrder(s, a, scene);
      WorkIsNat(s, scene);
      WorkIsNat(next, scene);
      var rest := BootstrapCompletes(next, scene);
      acts := [a] + rest;
      assert acts[1..] == rest;
    }
  }

  /** When the startup is over, which way it ended depends on the scene alone. */
  lemma OverMeans(s: Sys, scene: Scene)
    requires SysState(s, scene) && ValidScene(scene) && !Starting(s.app)
    ensures s.app.started == Showable(scene) && s.app.fault == !Showable(scene)
  {
    hide NetState, PostedInOrder, ValidScene, Showable, Stage;
    StageFive(scene);
  }

  function SysWorkNat(s: Sys, scene: Scene): nat {
    if SysWork(s, scene) < 0 then 0 else SysWork(s, scene)
  }

  lemma WorkIsNat(s: Sys, scene: Scene)
    requires SysState(s, scene)
    ensures SysWork(s, scene) >= 0
  {
    hide NetState, Stage, Work;
  }

  /** And no run of the system's own steps can go on for ever before that. */
  lemma {:induction false} BootstrapRunsEnd(s: Sys, acts: seq<SysAction>, scene: Scene)
    requires SysState(s, scene) && ValidScene(scene) && SysRun(s, acts, scene) && AllSysQuiet(acts)
    ensures |acts| <= SysWork(s, scene)
    decreases |acts|
  {
    hide SysState, SysNext, SysEnabled, SysWork, SysQuiet, ValidScene;
    WorkIsNat(s, scene);
    if acts != [] {
      SysWorkDecreases(s, acts[0], scene);
      SysStepKeepsState(s, acts[0], scene);
      assert forall k :: 0 <= k < |acts[1..]| ==> acts[1..][k] == acts[k + 1];
      BootstrapRunsEnd(SysNext(s, acts[0], scene), acts[1..], scene);
    }
  }

  /** A reachable state with open sockets in which the system by itself can do nothing more is one in which the client
      has started and shows the server's scene, exactly when the entities fit the map's index. */
  lemma StuckIsStarted(challenge: uint64, acts: seq<SysAction>, scene: Scene)
    requires ValidScene(scene) && SysRun(SysInit(challenge), acts, scene)
    requires var s := SysAfter(SysInit(challenge), acts, scene);
             s.net.server.open && s.net.client.open && forall a :: SysEnabled(s, a) ==> !SysQuiet(a)
    ensures var a := SysAfter(SysInit(challenge), acts, scene).app;
            a.started == Showable(scene) && a.fault == !Showable(scene) && (a.started ==> Mirrors(a, scene))
  {
    hide SysState, ValidScene, Showable, SysEnabled, SysQuiet, SysNext, SysInit, Mirrors;
    SysInitState(challenge, scene);
    SysRunKeepsState(SysInit(challenge), acts, scene);
    BootstrapCorrect(challenge, acts, scene);
    var s := SysAfter(SysInit(challenge), acts, scene);
    if Starting(s.app) {
      var a := SysProgress(s, scene);
    } else {
      OverMeans(s, scene);
    }
  }

  /** Every map of the environment, whatever the console and however much of the food was there when it was counted, is
      such a scene and can be shown. */
  lemma EnvironmentScene(i: nat, mapWidth: uint16, mapHeight: uint16, screenWidth: uint16, screenHeight: uint16,
                         id: uint64, draws: seq<Draw>, counted: uint64)
    requires AllDrawn(draws, mapWidth, mapHeight) && counted <= |draws| <= MAX_FOOD_PER_MAP
    ensures var config := MapConfigOf(i, mapWidth, mapHeight, screenWidth, screenHeight);
            var scene := Scene(config, counted, Foods(id, draws));
            ValidScene(scene) && Showable(scene)
  {
    hide Apply, Stores, MapConfigOf, Foods, InRange, AllDrawn;
    var size, k := mapWidth * mapHeight, |draws| - counted;
    SameSize(i, mapWidth, mapHeight, screenWidth, screenHeight);
    FoodsSuffix(id, draws, k);
    SuffixDrawn(draws, mapWidth, mapHeight, k);
    EmptyFoodIndex(IdAfter(id, k), draws[k..], mapWidth, mapHeight);
    FoodIndexed(EmptyGrid(size), IdAfter(id, k), draws[k..], mapWidth, mapHeight);
    UpdatedIff(EmptyGrid(size), Stores(Foods(IdAfter(id, k), draws[k..]), mapWidth));
  }

  lemma SuffixDrawn(draws: seq<Draw>, width: nat, height: nat, k: nat)
    requires k <= |draws| && AllDrawn(draws, width, height)
    ensures AllDrawn(draws[k..], width, height)
  {
  }
}
