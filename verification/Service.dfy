/** The server as a whole: several clients, each admitted, validated and started up over a connection of its own. */
module Services {
  import opened Params
  import opened Clients
  import opened Bootstrap
  import opened Environments
  import Admission

  /** A client's conversation: the challenge of its connection and the steps of network and client so far. */
  datatype Conversing = Conversing(challenge: uint64, acts: seq<SysAction>)

  /** The conversation is one with the scene of the map that the client was given when it was validated. */
  predicate Served(member: Admission.Member, c: Conversing, scenes: seq<Scene>) {
    && member.given.Some? && member.given.value < |scenes|
    && SysRun(SysInit(c.challenge), c.acts, scenes[member.given.value])
  }

  predicate AllServed(members: seq<Admission.Member>, clients: seq<Conversing>, scenes: seq<Scene>) {
    |clients| == |members| && forall k :: 0 <= k < |members| ==> Served(members[k], clients[k], scenes)
  }

  function AppOf(member: Admission.Member, c: Conversing, scenes: seq<Scene>): App
    requires Served(member, c, scenes)
  {
    SysAfter(SysInit(c.challenge), c.acts, scenes[member.given.value]).app
  }

  predicate AllStarted(members: seq<Admission.Member>, clients: seq<Conversing>, scenes: seq<Scene>)
    requires AllServed(members, clients, scenes)
  {
    forall k :: 0 <= k < |members| ==> AppOf(members[k], clients[k], scenes).started
  }

  /** Each client shows the scene of the map of its own rank. */
  predicate OwnScenes(members: seq<Admission.Member>, clients: seq<Conversing>, scenes: seq<Scene>)
    requires AllServed(members, clients, scenes) && |members| <= |scenes|
  {
    forall k :: 0 <= k < |members| ==> Mirrors(AppOf(members[k], clients[k], scenes), scenes[k])
  }

  predicate AllValid(scenes: seq<Scene>) {
    forall k :: 0 <= k < |scenes| ==> ValidScene(scenes[k])
  }

  /** No two maps show the same entities. */
  predicate ShownDiffer(scenes: seq<Scene>) {
    forall i, j :: 0 <= i < j < |scenes| ==> Shown(scenes[i]) != Shown(scenes[j])
  }

  lemma MirrorsOnlyItsOwn(member: Admission.Member, c: Conversing, scenes: seq<Scene>, k: nat)
    requires Served(member, c, scenes) && AllValid(scenes) && ShownDiffer(scenes) && k < |scenes|
    requires AppOf(member, c, scenes).started
    ensures Mirrors(AppOf(member, c, scenes), scenes[k]) <==> member.given.value == k
  {
    hide ValidScene, SysRun, SysInit, SysAfter, Shown, ClientConfig, ClientLayout, SceneIndex, Showable;
    BootstrapCorrect(c.challenge, c.acts, scenes[member.given.value]);
  }

  /** Over all runs of the server without drops in which every client has been validated and has started, whatever the
      interleaving in each client's conversation: each client shows the scene of the map of its own rank exactly when
      each was validated before the next one was accepted. */
  lemma OwnScenesIff(events: seq<Admission.Event>, clients: seq<Conversing>, scenes: seq<Scene>)
    requires AllValid(scenes) && ShownDiffer(scenes)
    requires Admission.Run(Admission.Init(|scenes|), events) && Admission.NoBroadcast(events)
    requires var members := Admission.After(Admission.Init(|scenes|), events).members;
             AllServed(members, clients, scenes) && AllStarted(members, clients, scenes)
    ensures var members := Admission.After(Admission.Init(|scenes|), events).members;
            && |members| <= |scenes|
            && (OwnScenes(members, clients, scenes) <==> Admission.PromptRun(Admission.Init(|scenes|), events))
  {
    hide Mirrors, AppOf, AllValid, ShownDiffer, Admission.Run, Admission.After, Admission.PromptRun, Served;
    var start := Admission.Init(|scenes|);
    Admission.AdmissionSafe(|scenes|, events);
    Admission.PromptIff(start, events);
    var members := Admission.After(start, events).members;
    forall k | 0 <= k < |members|
      ensures members[k].given.Some?
      ensures Mirrors(AppOf(members[k], clients[k], scenes), scenes[k]) <==> members[k].given.value == k
    {
      ServedIsGiven(members[k], clients[k], scenes);
      MirrorsOnlyItsOwn(members[k], clients[k], scenes, k);
    }
  }

  lemma ServedIsGiven(member: Admission.Member, c: Conversing, scenes: seq<Scene>)
    requires Served(member, c, scenes)
    ensures member.given.Some?
  {
    hide SysRun;
  }

  // The environment's own maps.

  /** Every map is given its share of the food, and some of it is there when a client's greeting counts it. */
  predicate Supplied(draws: seq<seq<Draw>>, counts: seq<uint64>, mapWidth: uint16, mapHeight: uint16) {
    && |counts| == |draws| && |draws| * MAX_FOOD_PER_MAP < 0x1_0000_0000_0000_0000
    && forall i :: 0 <= i < |draws| ==>
         && |draws[i]| == MAX_FOOD_PER_MAP && AllDrawn(draws[i], mapWidth, mapHeight)
         && 0 < counts[i] <= MAX_FOOD_PER_MAP
  }

  /** The scenes the environment's maps make, their food numbered on from map to map. */
  function EnvironmentScenes(draws: seq<seq<Draw>>, counts: seq<uint64>, mapWidth: uint16, mapHeight: uint16,
                             screenWidth: uint16, screenHeight: uint16): (scenes: seq<Scene>)
    requires Supplied(draws, counts, mapWidth, mapHeight)
    ensures |scenes| == |draws|
  {
    seq(|draws|, i requires 0 <= i < |draws| =>
      Scene(MapConfigOf(i, mapWidth, mapHeight, screenWidth, screenHeight), counts[i],
            Foods(i * MAX_FOOD_PER_MAP, draws[i])))
  }

  lemma EnvironmentDiffers(draws: seq<seq<Draw>>, counts: seq<uint64>, mapWidth: uint16, mapHeight: uint16,
                           screenWidth: uint16, screenHeight: uint16)
    requires Supplied(draws, counts, mapWidth, mapHeight)
    ensures var scenes := EnvironmentScenes(draws, counts, mapWidth, mapHeight, screenWidth, screenHeight);
            AllValid(scenes) && ShownDiffer(scenes)
  {
    hide Foods, AllDrawn, MapConfigOf;
    var scenes := EnvironmentScenes(draws, counts, mapWidth, mapHeight, screenWidth, screenHeight);
    forall i, j | 0 <= i < j < |scenes| ensures Shown(scenes[i]) != Shown(scenes[j]) {
      LastShown(i, draws[i], counts[i], scenes[i].config);
      LastShown(j, draws[j], counts[j], scenes[j].config);
    }
    forall i | 0 <= i < |scenes| ensures ValidScene(scenes[i]) {
      assert |scenes[i].entities| == MAX_FOOD_PER_MAP;
    }
  }

  /** The last piece of food shown tells the map. */
  lemma LastShown(i: nat, draws: seq<Draw>, counted: uint64, config: MapConfig)
    requires |draws| == MAX_FOOD_PER_MAP && 0 < counted <= MAX_FOOD_PER_MAP
    requires (i + 1) * MAX_FOOD_PER_MAP < 0x1_0000_0000_0000_0000
    ensures var shown := Shown(Scene(config, counted, Foods(i * MAX_FOOD_PER_MAP, draws)));
            shown != [] && shown[|shown| - 1].id == (i + 1) * MAX_FOOD_PER_MAP - 1
  {
    hide Foods;
    FoodExact(i * MAX_FOOD_PER_MAP, draws, MAX_FOOD_PER_MAP - 1);
  }

  /** So over all such runs of the server each client shows the map of its own rank exactly when each was validated
      before the next one was accepted. */
  lemma OwnMapsIff(events: seq<Admission.Event>, clients: seq<Conversing>, draws: seq<seq<Draw>>, counts: seq<uint64>,
                   mapWidth: uint16, mapHeight: uint16, screenWidth: uint16, screenHeight: uint16)
    requires Supplied(draws, counts, mapWidth, mapHeight)
    requires Admission.Run(Admission.Init(|draws|), events) && Admission.NoBroadcast(events)
    requires var scenes := EnvironmentScenes(draws, counts, mapWidth, mapHeight, screenWidth, screenHeight);
             var members := Admission.After(Admission.Init(|draws|), events).members;
             AllServed(members, clients, scenes) && AllStarted(members, clients, scenes)
    ensures var scenes := EnvironmentScenes(draws, counts, mapWidth, mapHeight, screenWidth, screenHeight);
            var members := Admission.After(Admission.Init(|draws|), events).members;
            && |members| <= |scenes|
            && (OwnScenes(members, clients, scenes) <==> Admission.PromptRun(Admission.Init(|draws|), events))
  {
    hide *;
    EnvironmentDiffers(draws, counts, mapWidth, mapHeight, screenWidth, screenHeight);
    OwnScenesIff(events, clients, EnvironmentScenes(draws, counts, mapWidth, mapHeight, screenWidth, screenHeight));
  }
}
